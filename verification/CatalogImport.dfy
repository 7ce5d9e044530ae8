/** Multi-file import with rollback over an abstract directory of files. Any
    input/output operation may fail; which ones do is the fixed schedule `fails`. */
module CatalogImport {
  import opened Common

  type Bytes = seq<bv8>

  /** Destination names never look like the names of temporary files. */
  datatype Name = Dest(folder: string, id: string) | Temp(serial: nat)
  type Files = map<Name, Bytes>

  datatype Entry = Entry(id: string, payload: Bytes, valid: bool)

  datatype WritePlan = WritePlan(
    destination: Name,
    payload: Bytes,
    staged: Option<Name>,
    backup: Option<Name>,
    existed: bool)

  datatype Error = NoError | Refused | IoError | RollbackFailed | CleanupError

  // ----- what the directory shows -----

  ghost predicate SameAt(files: Files, original: Files, name: Name)
  {
    (name in files <==> name in original) && (name in original ==> files[name] == original[name])
  }

  ghost predicate Written(files: Files, p: WritePlan)
  {
    p.destination in files && files[p.destination] == p.payload
  }

  /** Every destination outside the plans is as before. */
  ghost predicate OthersKept(files: Files, original: Files, plans: seq<WritePlan>)
  {
    forall name: Name :: name.Dest? && (forall i :: 0 <= i < |plans| ==> plans[i].destination != name) ==>
      SameAt(files, original, name)
  }

  /** Plans from `lo` to `hi` are written. */
  ghost predicate AllWritten(files: Files, plans: seq<WritePlan>, lo: nat, hi: nat)
  {
    forall i :: lo <= i < hi <= |plans| ==> Written(files, plans[i])
  }

  /** Destinations of the plans from `lo` to `hi` are as before. */
  ghost predicate AllKept(files: Files, original: Files, plans: seq<WritePlan>, lo: nat, hi: nat)
  {
    forall i :: lo <= i < hi <= |plans| ==> SameAt(files, original, plans[i].destination)
  }

  /** Each destination on its own is as before or holds its new payload. */
  ghost predicate EachOldOrNew(files: Files, original: Files, plans: seq<WritePlan>)
  {
    forall i :: 0 <= i < |plans| ==>
      SameAt(files, original, plans[i].destination) || Written(files, plans[i])
  }

  // ----- ownership of temporary files -----

  function Owns(p: WritePlan): set<Name>
  {
    (if p.staged.Some? then {p.staged.value} else {}) + (if p.backup.Some? then {p.backup.value} else {})
  }

  predicate Owned(plans: seq<WritePlan>, t: Name)
  {
    exists i :: 0 <= i < |plans| && t in Owns(plans[i])
  }

  /** The temporary files are those of before and those the plans own. */
  ghost predicate Exact(files: Files, plans: seq<WritePlan>, base: set<Name>)
  {
    forall t: Name :: t.Temp? ==> (t in files <==> t in base || Owned(plans, t))
  }

  /** Each temporary file is owned once. */
  ghost predicate Unique(plans: seq<WritePlan>, base: set<Name>)
  {
    && (forall i, t :: 0 <= i < |plans| && t in Owns(plans[i]) ==> t.Temp? && t !in base)
    && (forall i, j, t :: 0 <= i < |plans| && 0 <= j < |plans| && t in Owns(plans[i]) && t in Owns(plans[j]) ==> i == j)
    && (forall i :: 0 <= i < |plans| && plans[i].staged.Some? ==> plans[i].staged != plans[i].backup)
  }

  ghost predicate Tidy(files: Files, plans: seq<WritePlan>, base: set<Name>)
  {
    Exact(files, plans, base) && Unique(plans, base)
  }

  /** What the staged and backup files of one plan hold. */
  ghost predicate Backed(files: Files, original: Files, p: WritePlan)
  {
    && p.destination.Dest?
    && (p.staged.Some? ==> p.staged.value in files && files[p.staged.value] == p.payload)
    && (p.backup.Some? ==> p.backup.value in files && p.destination in original &&
                           files[p.backup.value] == original[p.destination])
  }

  ghost predicate Faithful(files: Files, original: Files, plans: seq<WritePlan>)
  {
    forall i :: 0 <= i < |plans| ==> Backed(files, original, plans[i])
  }

  ghost predicate Distinct(plans: seq<WritePlan>)
  {
    forall i, j :: 0 <= i < j < |plans| ==> plans[i].destination != plans[j].destination
  }

  function TempsOf(files: Files): set<Name> { set t | t in files && t.Temp? }

  /** The plans before anything is staged. */
  ghost predicate Blank(plans: seq<WritePlan>)
  {
    forall i :: 0 <= i < |plans| ==>
      plans[i].staged.None? && plans[i].backup.None? && plans[i].destination.Dest?
  }

  ghost predicate SameTargets(plans: seq<WritePlan>, others: seq<WritePlan>)
  {
    |plans| == |others| &&
    forall i :: 0 <= i < |plans| ==>
      plans[i].destination == others[i].destination && plans[i].payload == others[i].payload
  }

  /** Who owns a file after one plan changed. */
  lemma OwnedAfter(plans: seq<WritePlan>, i: nat, p: WritePlan, u: Name)
    requires i < |plans|
    ensures Owned(plans[i := p], u) <==>
              u in Owns(p) || exists j :: 0 <= j < |plans| && j != i && u in Owns(plans[j])
  {
    var after := plans[i := p];
    if Owned(after, u) {
      var j :| 0 <= j < |after| && u in Owns(after[j]);
      if j != i {
        assert u in Owns(plans[j]);
      }
    }
    if u in Owns(p) {
      assert u in Owns(after[i]);
    }
    if j :| 0 <= j < |plans| && j != i && u in Owns(plans[j]) {
      assert u in Owns(after[j]);
    }
  }

  /** A plan that gains a new temporary file. */
  ghost predicate Gains(before: WritePlan, after: WritePlan, t: Name)
  {
    || (before.staged.None? && after == before.(staged := Some(t)))
    || (before.backup.None? && after == before.(existed := true, backup := Some(t)))
  }

  lemma GainKeepsTidy(files: Files, plans: seq<WritePlan>, base: set<Name>, i: nat, p: WritePlan, t: Name,
                      payload: Bytes)
    requires i < |plans| && t.Temp? && t !in files && Gains(plans[i], p, t)
    requires Tidy(files, plans, base)
    ensures Tidy(files[t := payload], plans[i := p], base)
  {
    var after, now := plans[i := p], files[t := payload];
    assert !Owned(plans, t) && t !in base;
    assert forall j :: 0 <= j < |plans| ==> t !in Owns(plans[j]);
    assert Owns(p) == Owns(plans[i]) + {t};
    forall u: Name | u.Temp? ensures u in now <==> u in base || Owned(after, u) {
      OwnedAfter(plans, i, p, u);
      if Owned(plans, u) {
        var j :| 0 <= j < |plans| && u in Owns(plans[j]);
      }
    }
    forall j, k, u | 0 <= j < |after| && 0 <= k < |after| && u in Owns(after[j]) && u in Owns(after[k]) ensures j == k {
      if u != t {
        assert u in Owns(plans[j]) && u in Owns(plans[k]);
      }
    }
  }

  lemma GainKeepsFaithful(files: Files, original: Files, plans: seq<WritePlan>, i: nat, p: WritePlan, t: Name,
                          payload: Bytes)
    requires i < |plans| && t !in files && Gains(plans[i], p, t) && Faithful(files, original, plans)
    requires if plans[i].staged.None? && p.staged == Some(t) then payload == p.payload
             else p.destination in original && payload == original[p.destination]
    ensures Faithful(files[t := payload], original, plans[i := p])
  {
    var after := plans[i := p];
    forall j | 0 <= j < |after| ensures Backed(files[t := payload], original, after[j]) {
      assert Backed(files, original, plans[j]);
    }
  }

  /** A plan that gives up an owned temporary file. */
  ghost predicate Loses(before: WritePlan, after: WritePlan, t: Name)
  {
    || (before.staged == Some(t) && after == before.(staged := None))
    || (before.backup == Some(t) && after == before.(backup := None))
  }

  /** Consuming an owned temporary file by a replace keeps the rest tidy. */
  lemma LossKeepsTidy(files: Files, plans: seq<WritePlan>, base: set<Name>, i: nat, p: WritePlan, t: Name, now: Files)
    requires i < |plans| && Loses(plans[i], p, t) && plans[i].destination.Dest?
    requires Tidy(files, plans, base)
    requires t in files && now == files[p.destination := files[t]] - {t}
    ensures Tidy(now, plans[i := p], base)
  {
    var after := plans[i := p];
    assert t in Owns(plans[i]) && Owned(plans, t);
    assert Owns(p) == Owns(plans[i]) - {t};
    forall u: Name | u.Temp? ensures u in now <==> u in base || Owned(after, u) {
      OwnedAfter(plans, i, p, u);
      assert u in now <==> u in files && u != t;
      if Owned(plans, u) {
        var j :| 0 <= j < |plans| && u in Owns(plans[j]);
      }
    }
    forall j, k, u | 0 <= j < |after| && 0 <= k < |after| && u in Owns(after[j]) && u in Owns(after[k]) ensures j == k {
      assert u in Owns(plans[j]) && u in Owns(plans[k]);
    }
  }

  lemma LossKeepsFaithful(files: Files, original: Files, plans: seq<WritePlan>, base: set<Name>, i: nat, p: WritePlan,
                          t: Name, now: Files)
    requires i < |plans| && Loses(plans[i], p, t) && Unique(plans, base) && Faithful(files, original, plans)
    requires t in files && now == files[p.destination := files[t]] - {t}
    ensures Faithful(now, original, plans[i := p])
  {
    var after := plans[i := p];
    assert t in Owns(plans[i]);
    forall j | 0 <= j < |after| ensures Backed(now, original, after[j]) {
      assert Backed(files, original, plans[j]);
      assert j != i ==> t !in Owns(plans[j]);
      assert forall u :: u in Owns(plans[j]) ==> u.Temp?;
    }
  }

  /** A plan that is staged, and backed up if its destination exists. */
  ghost predicate Ready(original: Files, p: WritePlan)
  {
    p.staged.Some? && p.existed == (p.destination in original) == p.backup.Some?
  }

  lemma BlankIsTidy(files: Files, plans: seq<WritePlan>, base: set<Name>)
    requires Blank(plans) && base == TempsOf(files)
    ensures Tidy(files, plans, base) && Faithful(files, files, plans)
  {
    forall i | 0 <= i < |plans| ensures Owns(plans[i]) == {} {
    }
  }

  /** The existence flag alone owns nothing. */
  lemma FlagKeeps(files: Files, original: Files, plans: seq<WritePlan>, base: set<Name>, i: nat, p: WritePlan)
    requires i < |plans| && p == plans[i].(existed := p.existed)
    requires Faithful(files, original, plans) && Unique(plans, base)
    ensures Faithful(files, original, plans[i := p]) && Unique(plans[i := p], base)
    ensures Exact(files, plans, base) ==> Exact(files, plans[i := p], base)
  {
    var after := plans[i := p];
    forall j | 0 <= j < |after| ensures Owns(after[j]) == Owns(plans[j]) && Backed(files, original, after[j]) {
      assert Backed(files, original, plans[j]);
    }
    forall t ensures Owned(after, t) <==> Owned(plans, t) {
      if Owned(plans, t) {
        var j :| 0 <= j < |plans| && t in Owns(plans[j]);
        assert t in Owns(after[j]);
      }
    }
  }

  lemma DropKeeps(files: Files, original: Files, plans: seq<WritePlan>, base: set<Name>, name: Name)
    requires Tidy(files, plans, base) && Faithful(files, original, plans) && name.Dest?
    ensures Tidy(files - {name}, plans, base) && Faithful(files - {name}, original, plans)
  {
    forall i | 0 <= i < |plans| ensures Backed(files - {name}, original, plans[i]) {
      assert Backed(files, original, plans[i]);
      assert forall u :: u in Owns(plans[i]) ==> u.Temp?;
    }
  }

  /** A plan whose destination can be put back as it was. */
  ghost predicate Restorable(original: Files, p: WritePlan)
  {
    p.existed == (p.destination in original) == p.backup.Some?
  }

  /** Touching the destination of plan `i` leaves the other plans as they are. */
  lemma OthersStay(before: Files, files: Files, original: Files, prior: seq<WritePlan>, plans: seq<WritePlan>, i: nat)
    requires i < |plans| && SameTargets(plans, prior) && Distinct(plans)
    requires forall j :: 0 <= j < |plans| ==> plans[j].destination.Dest?
    requires forall name: Name :: name.Dest? && name != plans[i].destination ==> SameAt(files, before, name)
    ensures forall j :: 0 <= j < |plans| && j != i && Written(before, prior[j]) ==> Written(files, plans[j])
    ensures forall j :: 0 <= j < |plans| && j != i && SameAt(before, original, prior[j].destination) ==>
              SameAt(files, original, plans[j].destination)
  {
    forall j | 0 <= j < |plans| && j != i ensures SameAt(files, before, plans[j].destination) {
      assert plans[j].destination != plans[i].destination;
    }
  }

  /** One more destination written, the rest as they were. */
  lemma CommittedOne(before: Files, files: Files, original: Files, prior: seq<WritePlan>, plans: seq<WritePlan>, i: nat)
    requires i < |plans| && SameTargets(plans, prior) && Distinct(plans) && Faithful(files, original, plans)
    requires forall name: Name :: name.Dest? && name != plans[i].destination ==> SameAt(files, before, name)
    requires AllWritten(before, prior, 0, i) && AllKept(before, original, prior, i, |prior|) && Written(files, plans[i])
    ensures AllWritten(files, plans, 0, i + 1) && AllKept(files, original, plans, i + 1, |plans|)
  {
    DestinationsProper(files, original, plans);
    OthersStay(before, files, original, prior, plans, i);
  }

  /** Destinations are distinct, the plans' temporary files are faithful and owned
      once, and nothing outside the plans changed. */
  ghost predicate Settled(files: Files, plans: seq<WritePlan>, original: Files, targets: seq<WritePlan>,
                          base: set<Name>)
  {
    && SameTargets(plans, targets) && Distinct(plans)
    && Faithful(files, original, plans) && Unique(plans, base)
    && OthersKept(files, original, plans)
  }

  /** A temporary file that a plan owns is there and holds what it should. */
  lemma OwnedFile(files: Files, plans: seq<WritePlan>, original: Files, targets: seq<WritePlan>, base: set<Name>,
                  i: nat, t: Name)
    requires Settled(files, plans, original, targets, base) && i < |plans| && t in Owns(plans[i])
    ensures t.Temp? && t in files && plans[i].destination.Dest?
    ensures plans[i].staged == Some(t) ==> files[t] == plans[i].payload
    ensures plans[i].backup == Some(t) ==>
              plans[i].destination in original && files[t] == original[plans[i].destination]
  {
    assert Backed(files, original, plans[i]);
  }

  /** Moving an owned temporary file over the destination of its plan. */
  lemma LossKeepsSettled(files: Files, plans: seq<WritePlan>, original: Files, targets: seq<WritePlan>, base: set<Name>,
                         i: nat, p: WritePlan, t: Name, now: Files)
    requires Settled(files, plans, original, targets, base) && Exact(files, plans, base)
    requires i < |plans| && Loses(plans[i], p, t)
    requires t in files && now == files[p.destination := files[t]] - {t}
    ensures Settled(now, plans[i := p], original, targets, base) && Exact(now, plans[i := p], base)
    ensures p.destination in now && now[p.destination] == files[t]
    ensures forall name: Name :: name.Dest? && name != p.destination ==> SameAt(now, files, name)
  {
    assert p.destination.Dest? by {
      assert Backed(files, original, plans[i]);
    }
    LostIsTemp(plans, base, i, p, t);
    MoveEffect(files, p.destination, t, now);
    LossKeepsTidy(files, plans, base, i, p, t, now);
    LossKeepsFaithful(files, original, plans, base, i, p, t, now);
    TargetsKept(plans, targets, i, p);
    MovedOthersKept(files, plans, original, i, p, now);
  }

  function Target(folder: string, e: Entry): WritePlan
  {
    WritePlan(Dest(folder, e.id), e.payload, None, None, false)
  }

  function ActionTargets(actions: seq<Entry>): (r: seq<WritePlan>)
    ensures |r| == |actions| && forall i :: 0 <= i < |r| ==> r[i] == Target("actions", actions[i])
  {
    seq(|actions|, i requires 0 <= i < |actions| => Target("actions", actions[i]))
  }

  /** The plans of an import: the source document, then the actions in order. */
  function Targets(source: Entry, actions: seq<Entry>): seq<WritePlan>
  {
    [Target("sources", source)] + ActionTargets(actions)
  }

  predicate Importable(source: Entry, actions: seq<Entry>)
  {
    && source.valid
    && (forall i :: 0 <= i < |actions| ==> actions[i].valid)
    && (forall i, j :: 0 <= i < j < |actions| ==> actions[i].id != actions[j].id)
  }

  lemma TargetsShape(source: Entry, actions: seq<Entry>)
    ensures Blank(Targets(source, actions))
    ensures Importable(source, actions) ==> Distinct(Targets(source, actions))
  {
    var t := Targets(source, actions);
    assert forall i :: 1 <= i < |t| ==> t[i] == Target("actions", actions[i - 1]);
  }

  lemma DestinationsProper(files: Files, original: Files, plans: seq<WritePlan>)
    requires Faithful(files, original, plans)
    ensures forall j :: 0 <= j < |plans| ==> plans[j].destination.Dest?
  {
    assert forall j :: 0 <= j < |plans| ==> Backed(files, original, plans[j]);
  }

  lemma OwnedGrows(plans: seq<WritePlan>, i: nat)
    requires i < |plans|
    ensures forall t :: Owned(plans[..i + 1], t) <==> Owned(plans[..i], t) || t in Owns(plans[i])
  {
    var longer, shorter := plans[..i + 1], plans[..i];
    forall t ensures Owned(longer, t) <==> Owned(shorter, t) || t in Owns(plans[i]) {
      if j :| 0 <= j < |shorter| && t in Owns(shorter[j]) {
        assert t in Owns(longer[j]);
      }
      if t in Owns(plans[i]) {
        assert t in Owns(longer[i]);
      }
      if Owned(longer, t) {
        var j :| 0 <= j < |longer| && t in Owns(longer[j]);
        assert j < i ==> t in Owns(shorter[j]);
      }
    }
  }

  /** Planned destinations and the others together are all destinations. */
  lemma KeptIsUntouched(files: Files, original: Files, plans: seq<WritePlan>)
    requires OthersKept(files, original, plans)
    ensures AllKept(files, original, plans, 0, |plans|) ==>
              forall name: Name :: name.Dest? ==> SameAt(files, original, name)
  {
    if AllKept(files, original, plans, 0, |plans|) {
      forall name: Name | name.Dest? ensures SameAt(files, original, name) {
        if j :| 0 <= j < |plans| && plans[j].destination == name {
          assert SameAt(files, original, plans[j].destination);
        }
      }
    }
  }

  lemma UntouchedIsEach(files: Files, original: Files, plans: seq<WritePlan>)
    requires forall j :: 0 <= j < |plans| ==> plans[j].destination.Dest?
    ensures (forall name: Name :: name.Dest? ==> SameAt(files, original, name)) ==> EachOldOrNew(files, original, plans)
  {
  }

  /** What holds of the destinations of the plans holds of the targets, and is
      kept when temporary files go. */
  lemma SameDestinations(before: Files, files: Files, original: Files, plans: seq<WritePlan>, targets: seq<WritePlan>)
    requires SameTargets(plans, targets) && Blank(targets)
    requires forall name: Name :: name.Dest? ==> SameAt(files, before, name)
    ensures OthersKept(before, original, plans) ==> OthersKept(files, original, targets)
    ensures EachOldOrNew(before, original, plans) ==> EachOldOrNew(files, original, targets)
    ensures AllWritten(before, plans, 0, |plans|) ==> AllWritten(files, targets, 0, |targets|)
    ensures (forall name: Name :: name.Dest? ==> SameAt(before, original, name)) ==>
              forall name: Name :: name.Dest? ==> SameAt(files, original, name)
  {
    forall i | 0 <= i < |plans|
      ensures SameAt(files, before, targets[i].destination)
      ensures Written(before, plans[i]) ==> Written(files, targets[i])
      ensures SameAt(before, original, plans[i].destination) ==> SameAt(files, original, targets[i].destination)
    {
    }
    if OthersKept(before, original, plans) {
      forall name: Name | name.Dest? && forall i :: 0 <= i < |targets| ==> targets[i].destination != name
        ensures SameAt(files, original, name)
      {
        assert forall i :: 0 <= i < |plans| ==> plans[i].destination == targets[i].destination;
      }
    }
  }

  /** What a commit's answer says of the destinations. */
  ghost predicate Outcome(files: Files, original: Files, targets: seq<WritePlan>, error: Error)
  {
    && OthersKept(files, original, targets) && EachOldOrNew(files, original, targets)
    && (error == NoError ==> AllWritten(files, targets, 0, |targets|))
    && (error == IoError ==> forall name: Name :: name.Dest? ==> SameAt(files, original, name))
  }

  lemma OutcomeStays(before: Files, files: Files, original: Files, targets: seq<WritePlan>, error: Error)
    requires Blank(targets) && Outcome(before, original, targets, error)
    requires forall name: Name :: name.Dest? ==> SameAt(files, before, name)
    ensures Outcome(files, original, targets, error)
  {
    SameDestinations(before, files, original, targets, targets);
  }

  lemma TempsBack(files: Files, original: Files)
    requires forall t: Name :: t.Temp? ==> (t in files <==> t in TempsOf(original))
    ensures TempsOf(files) == TempsOf(original)
  {
  }

  lemma NothingChanged(files: Files, targets: seq<WritePlan>)
    ensures OthersKept(files, files, targets) && EachOldOrNew(files, files, targets)
  {
  }

  lemma MoveEffect(files: Files, destination: Name, t: Name, now: Files)
    requires t in files && now == files[destination := files[t]] - {t} && destination.Dest? && t.Temp?
    ensures destination in now && now[destination] == files[t]
    ensures forall name: Name :: name.Dest? && name != destination ==> SameAt(now, files, name)
  {
  }

  lemma LostIsTemp(plans: seq<WritePlan>, base: set<Name>, i: nat, p: WritePlan, t: Name)
    requires i < |plans| && Unique(plans, base) && Loses(plans[i], p, t)
    ensures t.Temp?
  {
    assert t in Owns(plans[i]);
  }

  lemma TargetsKept(plans: seq<WritePlan>, targets: seq<WritePlan>, i: nat, p: WritePlan)
    requires i < |plans| && SameTargets(plans, targets) && Distinct(plans)
    requires p.destination == plans[i].destination && p.payload == plans[i].payload
    ensures SameTargets(plans[i := p], targets) && Distinct(plans[i := p])
  {
  }

  lemma MovedOthersKept(files: Files, plans: seq<WritePlan>, original: Files, i: nat, p: WritePlan, now: Files)
    requires i < |plans| && OthersKept(files, original, plans) && p.destination == plans[i].destination
    requires forall name: Name :: name.Dest? && name != p.destination ==> SameAt(now, files, name)
    ensures OthersKept(now, original, plans[i := p])
  {
    var after := plans[i := p];
    forall name: Name | name.Dest? && forall j :: 0 <= j < |after| ==> after[j].destination != name
      ensures SameAt(now, original, name)
    {
      assert after[i].destination != name;
      assert forall j :: 0 <= j < |plans| ==> plans[j].destination == after[j].destination;
    }
  }

  lemma FaithfulWhenGrown(before: Files, files: Files, original: Files, plans: seq<WritePlan>)
    requires Faithful(before, original, plans)
    requires forall name :: name in before ==> name in files && files[name] == before[name]
    ensures Faithful(files, original, plans)
  {
    forall i | 0 <= i < |plans| ensures Backed(files, original, plans[i]) {
      assert Backed(before, original, plans[i]);
    }
  }

  /** What an operation was for. */
  datatype Phase = Checking | Staging | Discarding | Committing | RollingBack | CleaningUp

  /** How many operations of each phase failed. */
  datatype Failures = Failures(checking: nat, staging: nat, discarding: nat, committing: nat, rollingBack: nat,
                               cleaningUp: nat)
  {
    function Total(): nat { checking + staging + discarding + committing + rollingBack + cleaningUp }

    function With(phase: Phase): Failures
    {
      match phase
      case Checking => this.(checking := checking + 1)
      case Staging => this.(staging := staging + 1)
      case Discarding => this.(discarding := discarding + 1)
      case Committing => this.(committing := committing + 1)
      case RollingBack => this.(rollingBack := rollingBack + 1)
      case CleaningUp => this.(cleaningUp := cleaningUp + 1)
    }
  }

  /** How many of the first `n` operations fail. */
  ghost function FailuresBefore(fails: iset<nat>, n: nat): nat
  {
    if n == 0 then 0 else FailuresBefore(fails, n - 1) + if n - 1 in fails then 1 else 0
  }

  lemma {:induction false} NoFailureBetween(fails: iset<nat>, m: nat, n: nat)
    requires m <= n
    ensures FailuresBefore(fails, m) <= FailuresBefore(fails, n)
    ensures FailuresBefore(fails, m) == FailuresBefore(fails, n) <==> forall t :: m <= t < n ==> t !in fails
  {
    if m < n {
      NoFailureBetween(fails, m, n - 1);
    }
  }

  /** What has failed when a commit ends with the error. */
  ghost function AfterCommit(before: Failures, error: Error): Failures
  {
    match error
    case NoError => before
    case RollbackFailed => before.With(Committing).With(RollingBack)
    case _ => before.With(Committing)
  }

  class LocalCatalogStore {
    var files: Files
    var nextTemp: nat
    var plans: seq<WritePlan>
    var tick: nat
    const fails: iset<nat>
    ghost var failures: Failures

    /** Every failed operation is remembered. */
    ghost predicate Counted()
      reads this
    {
      failures.Total() == FailuresBefore(fails, tick)
    }

    /** Serial numbers not yet used name no file. */
    ghost predicate Valid()
      reads this
    {
      Counted() && forall t: Name :: t in files && t.Temp? ==> t.serial < nextTemp
    }

    constructor (files: Files, nextTemp: nat, fails: iset<nat>)
      requires forall t: Name :: t in files && t.Temp? ==> t.serial < nextTemp
      ensures Valid() && this.files == files && this.nextTemp == nextTemp && this.fails == fails
      ensures plans == [] && tick == 0
    {
      this.files, this.nextTemp, this.fails := files, nextTemp, fails;
      plans, tick := [], 0;
      failures := Failures(0, 0, 0, 0, 0, 0);
    }

    /** One operation of the operating system; it fails without effect or succeeds. */
    method Io(ghost phase: Phase) returns (ok: bool)
      requires Counted()
      modifies `tick, `failures
      ensures Counted() && tick == old(tick) + 1 && (ok <==> old(tick) !in fails)
      ensures failures == if ok then old(failures) else old(failures).With(phase)
    {
      ok := tick !in fails;
      if !ok {
        failures := failures.With(phase);
      }
      tick := tick + 1;
    }

    method Unlink(name: Name, ghost phase: Phase) returns (ok: bool)
      requires Counted()
      modifies `files, `tick, `failures
      ensures Counted() && files == if ok then old(files) - {name} else old(files)
      ensures failures == if ok then old(failures) else old(failures).With(phase)
      ensures tick == old(tick) + 1 && (ok <==> old(tick) !in fails)
    {
      ok := Io(phase);
      if ok {
        files := files - {name};
      }
    }

    /** `os.replace`: atomic. */
    method Replace(from: Name, to: Name, ghost phase: Phase) returns (ok: bool)
      requires Counted() && from in files && from != to
      modifies `files, `tick, `failures
      ensures Counted() && files == if ok then old(files)[to := old(files)[from]] - {from} else old(files)
      ensures failures == if ok then old(failures) else old(failures).With(phase)
      ensures tick == old(tick) + 1 && (ok <==> old(tick) !in fails)
    {
      ok := Io(phase);
      if ok {
        files := files[to := files[from]] - {from};
      }
    }

    /** What staging can have failed at: nothing, or one operation and, if `lost`, the
        removal of the file it had made. */
    twostate predicate StagingFailed(ok: bool, lost: bool)
      reads this
    {
      && (lost ==> !ok) && tick >= old(tick)
      && failures == if ok then old(failures)
                     else if lost then old(failures).With(Staging).With(Discarding)
                     else old(failures).With(Staging)
    }

    /** A new temporary file with the payload; on failure it is removed again,
        unless that removal fails too. */
    method StageBytes(payload: Bytes) returns (temporary: Option<Name>, ghost lost: bool)
      requires Valid()
      modifies `files, `nextTemp, `tick, `failures
      ensures Valid() && nextTemp >= old(nextTemp) && tick > old(tick)
      ensures StagingFailed(temporary.Some?, lost)
      ensures temporary.Some? ==>
                && temporary.value.Temp? && temporary.value !in old(files)
                && files == old(files)[temporary.value := payload]
      ensures temporary.None? && !lost ==> files == old(files)
      ensures forall name: Name :: name.Dest? ==> SameAt(files, old(files), name)
      ensures forall name :: name in old(files) ==> name in files && files[name] == old(files)[name]
    {
      lost := false;
      var made := Io(Staging);
      if !made {
        return None, false;
      }
      var name := Temp(nextTemp);
      nextTemp := nextTemp + 1;
      files := files[name := []];
      var stored := Io(Staging);
      if stored {
        files := files[name := payload];
        return Some(name), false;
      }
      var unlinked := Unlink(name, Discarding);
      temporary, lost := None, !unlinked;
      assert unlinked ==> files == old(files);
    }

    // ----- the phases of an import -----

    /** What holds of the plans and the directory at every point of an import:
        destinations are distinct, temporary files are accounted for unless a
        removal failed (`lost`), and nothing outside the plans changed. */
    ghost predicate Consistent(original: Files, targets: seq<WritePlan>, base: set<Name>, lost: bool)
      reads this
    {
      Valid() && Settled(files, plans, original, targets, base) && (!lost ==> Exact(files, plans, base))
    }

    /** The destinations all hold what they held before. */
    ghost predicate Untouched(original: Files)
      reads this
    {
      forall name: Name :: name.Dest? ==> SameAt(files, original, name)
    }

    /** Writes the payload of one plan to a new temporary file. */
    method StagePlan(i: nat, ghost original: Files, ghost targets: seq<WritePlan>, ghost base: set<Name>)
      returns (ok: bool, ghost lost: bool)
      requires i < |plans| && plans[i].staged.None?
      requires Consistent(original, targets, base, false) && Untouched(original)
      modifies `files, `nextTemp, `tick, `plans, `failures
      ensures Consistent(original, targets, base, lost) && Untouched(original) && StagingFailed(ok, lost)
      ensures !ok ==> plans == old(plans)
      ensures ok ==> exists t :: plans == old(plans)[i := old(plans)[i].(staged := Some(t))]
    {
      var plan := plans[i];
      var temporary;
      temporary, lost := StageBytes(plan.payload);
      if temporary.None? {
        FaithfulWhenGrown(old(files), files, original, plans);
        return false, lost;
      }
      var t := temporary.value;
      GainKeepsTidy(old(files), plans, base, i, plan.(staged := Some(t)), t, plan.payload);
      GainKeepsFaithful(old(files), original, plans, i, plan.(staged := Some(t)), t, plan.payload);
      plans := plans[i := plan.(staged := Some(t))];
      return true, false;
    }

    /** Copies one existing destination to a temporary file. */
    method CopyDestination(destination: Name) returns (temporary: Option<Name>, ghost lost: bool)
      requires Valid() && destination in files
      modifies `files, `nextTemp, `tick, `failures
      ensures Valid() && tick > old(tick) && StagingFailed(temporary.Some?, lost)
      ensures temporary.Some? ==>
                && temporary.value.Temp? && temporary.value !in old(files)
                && files == old(files)[temporary.value := old(files)[destination]]
      ensures temporary.None? && !lost ==> files == old(files)
      ensures forall name: Name :: name.Dest? ==> SameAt(files, old(files), name)
      ensures forall name :: name in old(files) ==> name in files && files[name] == old(files)[name]
    {
      var read := Io(Staging);
      if !read {
        return None, false;
      }
      temporary, lost := StageBytes(files[destination]);
    }

    /** Notes whether one destination exists and backs it up when it does. */
    method BackupPlan(i: nat, ghost original: Files, ghost targets: seq<WritePlan>, ghost base: set<Name>)
      returns (ok: bool, ghost lost: bool)
      requires i < |plans| && plans[i].backup.None?
      requires Consistent(original, targets, base, false) && Untouched(original)
      modifies `files, `nextTemp, `tick, `plans, `failures
      ensures Consistent(original, targets, base, lost) && Untouched(original) && StagingFailed(ok, lost)
      ensures exists p :: plans == old(plans)[i := p] && p.staged == old(plans[i]).staged &&
                          p.destination == old(plans[i]).destination &&
                          (ok ==> p.existed == (p.destination in original) == p.backup.Some?)
    {
      var plan := plans[i];
      assert Backed(files, original, plan) && SameAt(files, original, plan.destination);
      var flagged := plan.(existed := plan.destination in files);
      FlagKeeps(files, original, plans, base, i, flagged);
      plans := plans[i := flagged];
      if !flagged.existed {
        return true, false;
      }
      label Flagged:
      var temporary;
      temporary, lost := CopyDestination(plan.destination);
      if temporary.None? {
        FaithfulWhenGrown(old@Flagged(files), files, original, plans);
        return false, lost;
      }
      var t := temporary.value;
      var backed := flagged.(existed := true, backup := Some(t));
      GainKeepsTidy(old@Flagged(files), plans, base, i, backed, t, original[plan.destination]);
      GainKeepsFaithful(old@Flagged(files), original, plans, i, backed, t, original[plan.destination]);
      plans := plans[i := backed];
      assert plans == old(plans)[i := backed];
      return true, false;
    }

    method StageAll(ghost original: Files, ghost targets: seq<WritePlan>, ghost base: set<Name>)
      returns (ok: bool, ghost lost: bool)
      requires Consistent(original, targets, base, false) && Untouched(original) && Blank(plans)
      modifies `files, `nextTemp, `tick, `plans, `failures
      ensures Consistent(original, targets, base, lost) && Untouched(original) && StagingFailed(ok, lost)
      ensures ok ==> forall j :: 0 <= j < |plans| ==> plans[j].backup.None? && plans[j].staged.Some?
    {
      ghost var size := |plans|;
      for i := 0 to |plans|
        invariant |plans| == size && Consistent(original, targets, base, false) && Untouched(original)
        invariant forall j :: 0 <= j < |plans| ==> plans[j].backup.None? && (plans[j].staged.Some? <==> j < i)
        invariant failures == old(failures) && tick >= old(tick)
      {
        ok, lost := StagePlan(i, original, targets, base);
        if !ok {
          return;
        }
      }
      return true, false;
    }

    method BackupAll(ghost original: Files, ghost targets: seq<WritePlan>, ghost base: set<Name>)
      returns (ok: bool, ghost lost: bool)
      requires Consistent(original, targets, base, false) && Untouched(original)
      requires forall j :: 0 <= j < |plans| ==> plans[j].backup.None? && plans[j].staged.Some?
      modifies `files, `nextTemp, `tick, `plans, `failures
      ensures Consistent(original, targets, base, lost) && Untouched(original) && StagingFailed(ok, lost)
      ensures ok ==> forall i :: 0 <= i < |plans| ==> Ready(original, plans[i])
    {
      ghost var size := |plans|;
      for i := 0 to |plans|
        invariant |plans| == size && Consistent(original, targets, base, false) && Untouched(original)
        invariant forall j :: 0 <= j < i ==> Ready(original, plans[j])
        invariant forall j :: i <= j < |plans| ==> plans[j].backup.None? && plans[j].staged.Some?
        invariant failures == old(failures) && tick >= old(tick)
      {
        ok, lost := BackupPlan(i, original, targets, base);
        if !ok {
          return;
        }
      }
      return true, false;
    }

    /** Stages every payload, then backs up every existing destination. */
    method StageImport(ghost original: Files, ghost base: set<Name>) returns (ok: bool, ghost lost: bool)
      requires Valid() && files == original && Blank(plans) && Distinct(plans) && base == TempsOf(original)
      modifies `files, `nextTemp, `tick, `plans, `failures
      ensures Consistent(original, old(plans), base, lost) && Untouched(original) && StagingFailed(ok, lost)
      ensures ok ==> forall i :: 0 <= i < |plans| ==> Ready(original, plans[i])
    {
      ghost var targets := plans;
      BlankIsTidy(original, plans, base);
      ok, lost := StageAll(original, targets, base);
      if ok {
        ok, lost := BackupAll(original, targets, base);
      }
    }

    // ----- commit and rollback -----

    /** Moves one staged file over its destination. The replace and the sync of the
        directory may each fail. */
    method CommitPlan(i: nat, ghost original: Files, ghost targets: seq<WritePlan>, ghost base: set<Name>)
      returns (replaced: bool, ok: bool)
      requires i < |plans| && Consistent(original, targets, base, false)
      requires plans[i].staged.Some?
      modifies `files, `tick, `plans, `failures
      ensures Consistent(original, targets, base, false) && (ok ==> replaced)
      ensures failures == if ok then old(failures) else old(failures).With(Committing)
      ensures tick >= old(tick)
      ensures !replaced ==> plans == old(plans) && files == old(files)
      ensures replaced ==> plans == old(plans)[i := old(plans)[i].(staged := None)] && Written(files, plans[i])
      ensures forall name: Name :: name.Dest? && name != plans[i].destination ==> SameAt(files, old(files), name)
    {
      var valid := Io(Committing);
      if !valid {
        return false, false;
      }
      var plan := plans[i];
      var t := plan.staged.value;
      OwnedFile(files, plans, original, targets, base, i, t);
      replaced := Replace(t, plan.destination, Committing);
      if !replaced {
        return false, false;
      }
      var done := plan.(staged := None);
      LossKeepsSettled(old(files), plans, original, targets, base, i, done, t, files);
      plans := plans[i := done];
      ok := Io(Committing);
    }

    /** Puts the backup of one plan back. */
    method RestorePlan(i: nat, ghost original: Files, ghost targets: seq<WritePlan>, ghost base: set<Name>)
      returns (ok: bool)
      requires i < |plans| && Consistent(original, targets, base, false) && plans[i].backup.Some?
      modifies `files, `tick, `plans, `failures
      ensures Consistent(original, targets, base, false)
      ensures failures == if ok then old(failures) else old(failures).With(RollingBack)
      ensures tick == old(tick) + 1 && (ok <==> old(tick) !in fails)
      ensures !ok ==> plans == old(plans) && files == old(files)
      ensures ok ==> plans == old(plans)[i := old(plans)[i].(backup := None)] &&
                     SameAt(files, original, plans[i].destination)
      ensures forall name: Name :: name.Dest? && name != plans[i].destination ==> SameAt(files, old(files), name)
    {
      var plan := plans[i];
      var t := plan.backup.value;
      OwnedFile(files, plans, original, targets, base, i, t);
      ok := Replace(t, plan.destination, RollingBack);
      if ok {
        var done := plan.(backup := None);
        LossKeepsSettled(old(files), plans, original, targets, base, i, done, t, files);
        plans := plans[i := done];
      }
    }

    /** Removes a destination that did not exist before. */
    method RemovePlan(i: nat, ghost original: Files, ghost targets: seq<WritePlan>, ghost base: set<Name>)
      returns (ok: bool)
      requires i < |plans| && Consistent(original, targets, base, false)
      requires plans[i].destination !in original
      modifies `files, `tick, `failures
      ensures Consistent(original, targets, base, false)
      ensures failures == if ok then old(failures) else old(failures).With(RollingBack)
      ensures tick == old(tick) + 1 && (ok <==> old(tick) !in fails)
      ensures !ok ==> files == old(files)
      ensures ok ==> SameAt(files, original, plans[i].destination)
      ensures forall name: Name :: name.Dest? && name != plans[i].destination ==> SameAt(files, old(files), name)
    {
      assert Backed(files, original, plans[i]);
      ok := Unlink(plans[i].destination, RollingBack);
      if ok {
        DropKeeps(old(files), original, plans, base, plans[i].destination);
      }
    }

    /** Undoes one committed plan. */
    method RollbackPlan(i: nat, ghost original: Files, ghost targets: seq<WritePlan>, ghost base: set<Name>)
      returns (ok: bool)
      requires i < |plans| && Consistent(original, targets, base, false)
      requires plans[i].existed == (plans[i].destination in original) == plans[i].backup.Some?
      requires Written(files, plans[i])
      modifies `files, `tick, `plans, `failures
      ensures Consistent(original, targets, base, false)
      ensures failures == if ok then old(failures) else old(failures).With(RollingBack)
      ensures tick >= old(tick)
      ensures old(tick) in fails ==> !ok && tick == old(tick) + 1 && plans == old(plans) && files == old(files)
      ensures plans == old(plans) || plans == old(plans)[i := old(plans)[i].(backup := None)]
      ensures ok ==> SameAt(files, original, plans[i].destination)
      ensures SameAt(files, original, plans[i].destination) || Written(files, plans[i])
      ensures forall name: Name :: name.Dest? && name != plans[i].destination ==> SameAt(files, old(files), name)
    {
      if plans[i].existed {
        ok := RestorePlan(i, original, targets, base);
      } else {
        ok := RemovePlan(i, original, targets, base);
      }
      if ok {
        ok := Io(RollingBack);
      }
    }

    /** Undoes the committed plans, last first; stops at the first failure. */
    method RollbackImport(committed: seq<nat>, ghost original: Files, ghost targets: seq<WritePlan>,
                          ghost base: set<Name>) returns (ok: bool)
      requires Consistent(original, targets, base, false)
      requires |committed| <= |plans| && forall j :: 0 <= j < |committed| ==> committed[j] == j
      requires forall j :: 0 <= j < |plans| ==> Restorable(original, plans[j])
      requires AllWritten(files, plans, 0, |committed|) && AllKept(files, original, plans, |committed|, |plans|)
      modifies `files, `tick, `plans, `failures
      ensures Consistent(original, targets, base, false)
      ensures failures == if ok then old(failures) else old(failures).With(RollingBack)
      ensures tick >= old(tick)
      ensures committed != [] && old(tick) in fails ==>
                !ok && tick == old(tick) + 1 && plans == old(plans) && files == old(files)
      ensures ok ==> AllKept(files, original, plans, 0, |plans|)
      ensures EachOldOrNew(files, original, plans)
    {
      var k: nat := |committed|;
      ghost var size := |plans|;
      while k > 0
        invariant k <= |committed| <= |plans| == size && Consistent(original, targets, base, false)
        invariant forall j :: 0 <= j < k ==> Restorable(original, plans[j])
        invariant AllWritten(files, plans, 0, k) && AllKept(files, original, plans, k, |plans|)
        invariant failures == old(failures) && tick >= old(tick)
        invariant if k == |committed| then tick == old(tick) && plans == old(plans) && files == old(files)
                  else old(tick) !in fails
      {
        k := k - 1;
        label Before:
        ok := RollbackPlan(committed[k], original, targets, base);
        OthersStay(old@Before(files), files, original, old@Before(plans), plans, k);
        if !ok {
          return;
        }
      }
      return true;
    }

    /** The first `i` destinations are written, the others as before. */
    ghost predicate Midway(original: Files, targets: seq<WritePlan>, base: set<Name>, i: nat)
      reads this
    {
      && Consistent(original, targets, base, false)
      && (forall j :: 0 <= j < |plans| ==> Restorable(original, plans[j]) && (i <= j ==> plans[j].staged.Some?))
      && AllWritten(files, plans, 0, i) && AllKept(files, original, plans, i, |plans|)
    }

    /** Commits the next plan; a failure after the replace leaves it committed. */
    method CommitNext(i: nat, ghost original: Files, ghost targets: seq<WritePlan>, ghost base: set<Name>)
      returns (replaced: bool, ok: bool)
      requires i < |plans| && Midway(original, targets, base, i)
      modifies `files, `tick, `plans, `failures
      ensures |plans| == |old(plans)| && (ok ==> replaced)
      ensures failures == if ok then old(failures) else old(failures).With(Committing)
      ensures tick >= old(tick)
      ensures Midway(original, targets, base, if replaced then i + 1 else i)
    {
      replaced, ok := CommitPlan(i, original, targets, base);
      if replaced {
        CommittedOne(old(files), files, original, old(plans), plans, i);
      }
    }

    /** Replaces the destinations one by one; on any failure undoes those replaced. */
    method CommitImport(ghost original: Files, ghost targets: seq<WritePlan>, ghost base: set<Name>)
      returns (error: Error)
      requires Consistent(original, targets, base, false) && Untouched(original)
      requires forall j :: 0 <= j < |plans| ==> Ready(original, plans[j])
      modifies `files, `tick, `plans, `failures
      ensures Consistent(original, targets, base, false)
      ensures error in {NoError, IoError, RollbackFailed}
      ensures failures == AfterCommit(old(failures), error) && tick >= old(tick)
      ensures error == NoError ==> AllWritten(files, plans, 0, |plans|)
      ensures error == IoError ==> AllKept(files, original, plans, 0, |plans|)
      ensures EachOldOrNew(files, original, plans)
    {
      var committed: seq<nat> := [];
      ghost var size := |plans|;
      DestinationsProper(files, original, plans);
      for i := 0 to |plans|
        invariant |plans| == size && Midway(original, targets, base, i)
        invariant |committed| == i && forall j :: 0 <= j < i ==> committed[j] == j
        invariant failures == old(failures) && tick >= old(tick)
      {
        var replaced, ok := CommitNext(i, original, targets, base);
        if replaced {
          committed := committed + [i];
        }
        if !ok {
          var undone := RollbackImport(committed, original, targets, base);
          return if undone then IoError else RollbackFailed;
        }
      }
      return NoError;
    }

    /** Removes the temporary files that one plan still names. */
    method RemoveOwned(plan: WritePlan) returns (ok: bool)
      requires Counted()
      modifies `files, `tick, `failures
      ensures Counted() && tick >= old(tick)
      ensures failures == if ok then old(failures) else old(failures).With(CleaningUp)
      ensures forall name :: name in files ==> name in old(files) && files[name] == old(files)[name]
      ensures forall name :: name in old(files) && name !in Owns(plan) ==> name in files
      ensures old(tick) in fails && Owns(plan) != {} ==> !ok
      ensures ok ==> forall name :: name in Owns(plan) ==> name !in files
    {
      ok := true;
      if plan.staged.Some? {
        ok := Unlink(plan.staged.value, CleaningUp);
      }
      if ok && plan.backup.Some? {
        ok := Unlink(plan.backup.value, CleaningUp);
      }
    }

    /** The final clean-up: every staged and backup file that is still named. */
    method RemoveTemporaries(ghost base: set<Name>) returns (ok: bool)
      requires Valid() && Unique(plans, base)
      modifies `files, `tick, `failures
      ensures Valid() && forall name: Name :: name.Dest? ==> SameAt(files, old(files), name)
      ensures failures == if ok then old(failures) else old(failures).With(CleaningUp)
      ensures tick >= old(tick)
      ensures plans != [] && Owns(plans[0]) != {} && old(tick) in fails ==> !ok
      ensures ok && Exact(old(files), plans, base) ==> forall t: Name :: t.Temp? ==> (t in files <==> t in base)
    {
      for i := 0 to |plans|
        invariant if i == 0 then tick == old(tick) else old(tick) in fails ==> Owns(plans[0]) == {}
        invariant Counted() && failures == old(failures) && tick >= old(tick)
        invariant forall name :: name in files <==> name in old(files) && !Owned(plans[..i], name)
        invariant forall name :: name in files ==> files[name] == old(files)[name]
        invariant forall name: Name :: name.Dest? ==> name in old(files) ==> name in files
      {
        assert forall t :: t in Owns(plans[i]) ==> t.Temp?;
        OwnedGrows(plans, i);
        ok := RemoveOwned(plans[i]);
        if !ok {
          return;
        }
      }
      assert plans[..|plans|] == plans;
      return true;
    }

    /** Validation comes first; only then are destinations looked at. */
    method PrepareImport(source: Entry, actions: seq<Entry>) returns (error: Error)
      requires Counted()
      modifies `plans, `tick, `failures
      ensures error in {NoError, Refused, IoError}
      ensures error == Refused <==> !Importable(source, actions)
      ensures Counted() && tick >= old(tick)
      ensures failures == if error == IoError then old(failures).With(Checking) else old(failures)
      ensures error == NoError ==> plans == Targets(source, actions)
    {
      if !source.valid {
        return Refused;
      }
      var seenActionIds: set<string> := {};
      for i := 0 to |actions|
        invariant Importable(source, actions[..i])
        invariant seenActionIds == set j | 0 <= j < i :: actions[j].id
      {
        assert actions[..i + 1] == actions[..i] + [actions[i]];
        if !actions[i].valid || actions[i].id in seenActionIds {
          assert !Importable(source, actions);
          return Refused;
        }
        seenActionIds := seenActionIds + {actions[i].id};
      }
      assert actions[..|actions|] == actions;
      plans := Targets(source, actions);
      for i := 0 to |plans|
        invariant plans == Targets(source, actions)
        invariant Counted() && failures == old(failures) && tick >= old(tick)
      {
        var looked := Io(Checking);
        if !looked {
          return IoError;
        }
      }
      return NoError;
    }

    /** Staging, then commit: everything between preparation and clean-up. */
    method StageAndCommit(ghost original: Files, ghost targets: seq<WritePlan>, ghost base: set<Name>)
      returns (error: Error, ghost lost: bool)
      requires Valid() && files == original && plans == targets && Blank(targets) && Distinct(targets)
      requires base == TempsOf(original)
      modifies `files, `nextTemp, `tick, `plans, `failures
      ensures Consistent(original, targets, base, lost)
      ensures error in {NoError, IoError, RollbackFailed}
      ensures (StagingFailed(false, lost) && error == IoError) ||
              (failures == AfterCommit(old(failures), error) && !lost)
      ensures tick >= old(tick)
      ensures Outcome(files, original, targets, error)
    {
      var staged;
      staged, lost := StageImport(original, base);
      error := IoError;
      if staged {
        error := CommitImport(original, targets, base);
        KeptIsUntouched(files, original, plans);
      } else {
        DestinationsProper(files, original, plans);
        UntouchedIsEach(files, original, plans);
      }
      SameDestinations(files, files, original, plans, targets);
    }

    /** The destinations hold all their payloads, or all what they held before. */
    twostate predicate AllOrNothing(written: bool, targets: seq<WritePlan>)
      reads this
    {
      if written then AllWritten(files, targets, 0, |targets|) else Untouched(old(files))
    }

    /** All or nothing, in terms of what failed. The import succeeds exactly when it is
        valid and no operation fails. Without a failed rollback step the destinations
        hold all their payloads when nothing but clean-up failed, and are all as before
        otherwise, absent ones included. A failed clean-up removal is reported over any
        other error, a failed rollback step over what it was to undo. Whatever fails,
        each destination on its own is old or new and nothing else changes. Temporary
        files are as before unless the removal of one failed. */
    method WriteImport(source: Entry, actions: seq<Entry>) returns (error: Error)
      requires Valid()
      modifies this
      ensures Valid() && tick >= old(tick)
      ensures failures == old(failures) <==> forall t :: old(tick) <= t < tick ==> t !in fails
      ensures OthersKept(files, old(files), Targets(source, actions))
      ensures EachOldOrNew(files, old(files), Targets(source, actions))
      ensures error == NoError <==> Importable(source, actions) && failures == old(failures)
      ensures error == Refused <==> !Importable(source, actions) && failures == old(failures)
      ensures error == CleanupError <==> failures.cleaningUp > old(failures).cleaningUp
      ensures error == RollbackFailed <==>
                failures.rollingBack > old(failures).rollingBack && failures.cleaningUp == old(failures).cleaningUp
      ensures failures.rollingBack == old(failures).rollingBack ==>
                AllOrNothing(
                  Importable(source, actions) && failures == old(failures).(cleaningUp := failures.cleaningUp),
                  Targets(source, actions))
      ensures failures.discarding == old(failures).discarding && failures.cleaningUp == old(failures).cleaningUp ==>
                TempsOf(files) == TempsOf(old(files))
    {
      TargetsShape(source, actions);
      NothingChanged(files, Targets(source, actions));
      var directories := Io(Checking);
      error := IoError;
      if directories {
        error := PrepareImport(source, actions);
        if error == NoError {
          error := StageCommitAndClean(Targets(source, actions));
        }
      }
      NoFailureBetween(fails, old(tick), tick);
    }

    method StageCommitAndClean(ghost targets: seq<WritePlan>) returns (error: Error)
      requires Valid() && plans == targets && Blank(targets) && Distinct(targets)
      modifies this
      ensures Valid() && tick >= old(tick)
      ensures OthersKept(files, old(files), targets) && EachOldOrNew(files, old(files), targets)
      ensures error in {NoError, IoError, RollbackFailed, CleanupError}
      ensures error == NoError <==> failures == old(failures)
      ensures failures == old(failures) || failures.Total() > old(failures).Total()
      ensures failures.checking == old(failures).checking
      ensures error == CleanupError <==> failures.cleaningUp > old(failures).cleaningUp
      ensures error == RollbackFailed <==>
                failures.rollingBack > old(failures).rollingBack && failures.cleaningUp == old(failures).cleaningUp
      ensures failures.rollingBack == old(failures).rollingBack ==>
                AllOrNothing(failures == old(failures).(cleaningUp := failures.cleaningUp), targets)
      ensures failures.discarding == old(failures).discarding && failures.cleaningUp == old(failures).cleaningUp ==>
                TempsOf(files) == TempsOf(old(files))
    {
      ghost var lost;
      error, lost := StageAndCommit(files, targets, TempsOf(files));
      label Done:
      var removed := RemoveTemporaries(TempsOf(old(files)));
      OutcomeStays(old@Done(files), files, old(files), targets, error);
      if removed && !lost {
        TempsBack(files, old(files));
      }
      if !removed {
        error := CleanupError;
      }
    }
  }

  const TARGET := Dest("sources", "s")
  const OLD: Files := map[TARGET := [1]]
  const REPLACED: Files := map[TARGET := [2], Temp(1) := [1]]
  const COMMITTED := WritePlan(TARGET, [2], None, Some(Temp(1)), true)
  const PLANNED := COMMITTED.(staged := Some(Temp(0)))

  /** An import of one plan whose destination existed, after the replace. */
  ghost predicate JustReplaced(files: Files, original: Files, plan: WritePlan, planned: WritePlan)
  {
    && Settled(files, [plan], original, [planned], {}) && Exact(files, [plan], {})
    && Written(files, plan) && Restorable(original, plan) && plan.backup.Some?
    && forall t: Name :: t in files && t.Temp? ==> t.serial < 2
  }

  lemma OneReplaced()
    ensures JustReplaced(REPLACED, OLD, COMMITTED, PLANNED)
  {
    assert Owns(COMMITTED) == {Temp(1)};
    assert Owned([COMMITTED], Temp(1)) by {
      assert Temp(1) in Owns([COMMITTED][0]);
    }
    assert OthersKept(REPLACED, OLD, [COMMITTED]) by {
      assert [COMMITTED][0].destination == TARGET;
    }
  }

  /** The store at that point, about to fail the next two operations. */
  method Resumed(files: Files, ghost original: Files, plan: WritePlan, ghost planned: WritePlan)
    returns (store: LocalCatalogStore)
    requires JustReplaced(files, original, plan, planned)
    ensures fresh(store) && store.Consistent(original, [planned], {}, false)
    ensures store.files == files && store.plans == [plan] && AllWritten(files, [plan], 0, 1)
    ensures store.tick == 0 && 0 in store.fails && 1 in store.fails
  {
    store := new LocalCatalogStore(files, 2, iset{0, 1});
    store.plans := [plan];
  }

  /** The rollback of a store whose next operation fails. */
  method FailUndo(store: LocalCatalogStore, ghost original: Files, plan: WritePlan, ghost planned: WritePlan)
    returns (undone: bool)
    requires store.Consistent(original, [planned], {}, false) && store.plans == [plan]
    requires AllWritten(store.files, [plan], 0, 1) && Restorable(original, plan) && store.tick in store.fails
    modifies store
    ensures store.Valid() && Unique([plan], {})
    ensures !undone && store.plans == [plan] && store.files == old(store.files)
    ensures store.tick == old(store.tick) + 1
  {
    undone := store.RollbackImport([0], original, [planned], {});
  }

  /** The clean-up of a store whose next operation fails. */
  method FailRemove(store: LocalCatalogStore, plan: WritePlan) returns (removed: bool)
    requires store.Valid() && Unique([plan], {}) && store.plans == [plan]
    requires plan.backup.Some? && store.tick in store.fails
    modifies store
    ensures !removed
    ensures forall name: Name :: name.Dest? ==> SameAt(store.files, old(store.files), name)
  {
    assert plan.backup.value in Owns(plan);
    removed := store.RemoveTemporaries({});
  }

  /** The sync after the replace has failed; so do the rollback step and the clean-up
      removal that follow. */
  method FailBoth(files: Files, ghost original: Files, plan: WritePlan, ghost planned: WritePlan)
    returns (store: LocalCatalogStore, undone: bool, removed: bool)
    requires JustReplaced(files, original, plan, planned)
    ensures !undone && !removed
    ensures forall name: Name :: name.Dest? ==> SameAt(store.files, files, name)
  {
    store := Resumed(files, original, plan, planned);
    undone := FailUndo(store, original, plan, planned);
    removed := FailRemove(store, plan);
  }

  /** A schedule that hides a failed rollback: the clean-up is what is reported, and the
      new payload stays in place. */
  method HiddenRollback() returns (store: LocalCatalogStore, undone: bool, removed: bool)
    ensures !undone && !removed
    ensures TARGET in store.files && store.files[TARGET] == [2]
  {
    OneReplaced();
    store, undone, removed := FailBoth(REPLACED, OLD, COMMITTED, PLANNED);
    assert SameAt(store.files, REPLACED, TARGET);
  }
}
