/** How the BSD package lifecycle turns retained evidence into check statuses, a state and a verdict. */
module Lifecycle {

  datatype Step =
    | BuildStep | InstallStep | FileInventory | ConsumerStep | ServiceStart | GracefulShutdown
    | PutGetEraseStep | RestartStep | ConfigStep | Uninstall

  datatype Check =
    | StructuralMetadata | ReferencePort | PortsAccount | UpstreamAcceptance | SealedSource
    | PackageBuild | PackageInstall | PackageInspect | ExternalConsumer | ServiceLifecycle
    | PutGetErase | RestartRecovery | ConfigPreservation | PackageRemove | PackageUpgrade

  datatype Status = Pass | Fail | NotRun | Blocked | OpenGate | NotApplicable

  datatype Outcome = Passed | Failed | Skipped
  datatype Sealed = Verified | Unverified | Absent
  datatype State = Nothing | Structural | Built | Installed | Functional | LifecycleVerified | UpgradeVerified
  datatype PreviousPackage = BadPackage | NoPackage | SuppliedPackage

  /** The native checks in the order the script runs them. */
  const ORDER := [PackageBuild, PackageInstall, PackageInspect, ExternalConsumer, ServiceLifecycle,
                  PutGetErase, RestartRecovery, ConfigPreservation, PackageRemove]

  /** The steps whose retained markers prove a native check. */
  function Steps(c: Check): set<Step> {
    match c
    case PackageBuild => {BuildStep}
    case PackageInstall => {InstallStep}
    case PackageInspect => {FileInventory}
    case ExternalConsumer => {ConsumerStep}
    case ServiceLifecycle => {ServiceStart, GracefulShutdown}
    case PutGetErase => {PutGetEraseStep}
    case RestartRecovery => {RestartStep}
    case ConfigPreservation => {ConfigStep}
    case PackageRemove => {Uninstall}
    case _ => {}
  }

  /** A row of a step table: a check and the steps that prove it. */
  datatype Row = Row(check: Check, steps: set<Step>)

  function Table(): (t: seq<Row>)
    ensures |t| == |ORDER|
    ensures forall i | 0 <= i < |t| :: t[i] == Row(ORDER[i], Steps(ORDER[i]))
  {
    seq(|ORDER|, i requires 0 <= i < |ORDER| => Row(ORDER[i], Steps(ORDER[i])))
  }

  predicate Distinct(table: seq<Row>) {
    forall i, j | 0 <= i < j < |table| :: table[i].check != table[j].check
  }

  ghost predicate FirstUnproven(table: seq<Row>, retained: set<Step>, i: nat)
    requires i < |table|
  {
    !(table[i].steps <= retained) && forall j | 0 <= j < i :: table[j].steps <= retained
  }

  /** The status of the `i`-th native check: only retained markers pass it, and one check at most is FAIL. */
  ghost predicate Judged(table: seq<Row>, retained: set<Step>, outcome: Outcome, i: nat, status: Status)
    requires i < |table|
  {
    if outcome.Skipped? then status == Blocked
    else
      && (status == Pass <==> table[i].steps <= retained)
      && (status == Fail <==> FirstUnproven(table, retained, i))
      && (status == NotRun <==> status != Pass && status != Fail)
  }

  /** The loop over the native checks, for any step table. */
  method NativeStatuses(table: seq<Row>, retained: set<Step>, outcome: Outcome) returns (statuses: map<Check, Status>)
    requires Distinct(table)
    ensures forall i | 0 <= i < |table| ::
              table[i].check in statuses && Judged(table, retained, outcome, i, statuses[table[i].check])
  {
    statuses := map[];
    var aborted := false;
    for n := 0 to |table|
      invariant !aborted <==> forall j | 0 <= j < n :: table[j].steps <= retained
      invariant forall i | 0 <= i < n ::
                  table[i].check in statuses && Judged(table, retained, outcome, i, statuses[table[i].check])
    {
      var proven := table[n].steps <= retained;
      var status :=
        if outcome.Skipped? then Blocked
        else if proven then Pass
        else if aborted then NotRun
        else Fail;
      assert Judged(table, retained, outcome, n, status);
      statuses := statuses[table[n].check := status];
      aborted := aborted || !proven;
    }
  }

  /** Everything else a run decides on. */
  datatype Evidence = Evidence(
    retained: set<Step>, outcome: Outcome, structuralLog: bool, portPassed: bool,
    accountPresent: bool, sealed: Sealed, release: bool,
    previousRelease: bool, package: PreviousPackage, upgradeLog: bool, upgradeMarker: bool)

  /** The upgrade from the previous release: only its own retained marker passes it. */
  function Upgrade(e: Evidence): Status {
    if !e.previousRelease then NotApplicable
    else if e.package.BadPackage? then Fail
    else if e.upgradeLog && e.upgradeMarker then Pass
    else if e.package.SuppliedPackage? && e.upgradeLog then Fail
    else NotRun
  }

  ghost predicate NativeOutcome(e: Evidence, s: map<Check, Status>) {
    forall i | 0 <= i < |ORDER| :: ORDER[i] in s && Judged(Table(), e.retained, e.outcome, i, s[ORDER[i]])
  }

  /** The deepest state whose checks, and those of every state before it, have passed. */
  function LifecycleState(s: map<Check, Status>): State {
    if !AllPass(s, {StructuralMetadata, ReferencePort}) then Nothing
    else if !AllPass(s, {SealedSource, PackageBuild}) then Structural
    else if !AllPass(s, {PackageInstall, PackageInspect}) then Built
    else if !AllPass(s, {ServiceLifecycle, PutGetErase, RestartRecovery}) then Installed
    else if !AllPass(s, {ConfigPreservation, PackageRemove, ExternalConsumer}) then Functional
    else if !AllPass(s, {PackageUpgrade}) then LifecycleVerified
    else UpgradeVerified
  }

  predicate AllPass(s: map<Check, Status>, checks: set<Check>) {
    forall c | c in checks :: c in s && s[c] == Pass
  }

  /** What speaks against the upgrade: a bad package, or a retained log of its walk without the marker. */
  ghost predicate UpgradeFailed(e: Evidence) {
    e.previousRelease && (e.package.BadPackage? || (e.package.SuppliedPackage? && e.upgradeLog && !e.upgradeMarker))
  }

  ghost predicate UpgradePassed(e: Evidence) {
    e.previousRelease && !e.package.BadPackage? && e.upgradeLog && e.upgradeMarker
  }

  ghost predicate OtherOutcome(e: Evidence, s: map<Check, Status>) {
    && StructuralMetadata in s && s[StructuralMetadata] == (if e.structuralLog then Pass else Fail)
    && ReferencePort in s && s[ReferencePort] == (if e.portPassed then Pass else Fail)
    && PortsAccount in s && s[PortsAccount] == (if e.accountPresent then Pass else OpenGate)
    && UpstreamAcceptance in s && s[UpstreamAcceptance] == OpenGate
    && SealedSource in s && (s[SealedSource] == Pass <==> e.sealed.Verified?)
    && (s[SealedSource] == Fail <==> e.sealed.Unverified?)
    && (s[SealedSource] == Blocked <==> e.sealed.Absent? && e.release)
    && (s[SealedSource] == NotRun <==> e.sealed.Absent? && !e.release)
    && PackageUpgrade in s && (s[PackageUpgrade] == NotApplicable <==> !e.previousRelease)
    && (s[PackageUpgrade] == Pass <==> UpgradePassed(e))
    && (s[PackageUpgrade] == Fail <==> UpgradeFailed(e))
    && (s[PackageUpgrade] == NotRun <==> e.previousRelease && !UpgradePassed(e) && !UpgradeFailed(e))
  }

  ghost predicate AllRetained(retained: set<Step>) {
    forall i | 0 <= i < |ORDER| :: Steps(ORDER[i]) <= retained
  }

  /** No evidence speaks against the run. */
  ghost predicate NothingFailed(e: Evidence) {
    && e.structuralLog && e.portPassed && !e.sealed.Unverified? && !UpgradeFailed(e)
    && (e.outcome.Skipped? || AllRetained(e.retained))
  }

  lemma {:induction false} SomeFirstUnproven(table: seq<Row>, retained: set<Step>, k: nat) returns (i: nat)
    requires k < |table| && !(table[k].steps <= retained)
    ensures i < |table| && FirstUnproven(table, retained, i)
    decreases k
  {
    if j :| 0 <= j < k && !(table[j].steps <= retained) {
      i := SomeFirstUnproven(table, retained, j);
    } else {
      i := k;
    }
  }

  lemma KindOf(c: Check)
    ensures c in [StructuralMetadata, ReferencePort, PortsAccount, UpstreamAcceptance, SealedSource, PackageUpgrade]
         || exists i :: 0 <= i < |ORDER| && ORDER[i] == c
  {
    assert ORDER[0].PackageBuild? && ORDER[1].PackageInstall? && ORDER[2].PackageInspect?;
    assert ORDER[3].ExternalConsumer? && ORDER[4].ServiceLifecycle? && ORDER[5].PutGetErase?;
    assert ORDER[6].RestartRecovery? && ORDER[7].ConfigPreservation? && ORDER[8].PackageRemove?;
  }

  /** Some status is FAIL exactly when the evidence speaks against the run: a pass is never inferred. */
  lemma FailedIff(e: Evidence, s: map<Check, Status>)
    requires NativeOutcome(e, s) && OtherOutcome(e, s)
    ensures Fail in s.Values <==> !NothingFailed(e)
  {
    hide Steps;
    if Fail in s.Values {
      var c :| c in s && s[c] == Fail;
      KindOf(c);
    }
    if !e.outcome.Skipped? && !AllRetained(e.retained) {
      var k :| 0 <= k < |ORDER| && !(Steps(ORDER[k]) <= e.retained);
      var i := SomeFirstUnproven(Table(), e.retained, k);
      assert s[ORDER[i]] == Fail;
    }
    if !NothingFailed(e) && (e.outcome.Skipped? || AllRetained(e.retained)) {
      assert s[StructuralMetadata] == Fail || s[ReferencePort] == Fail
          || s[SealedSource] == Fail || s[PackageUpgrade] == Fail;
    }
  }

  /** The admission of the sealed source archive. */
  function Admission(e: Evidence): Status {
    if e.sealed.Verified? then Pass
    else if e.sealed.Unverified? then Fail
    else if e.release then Blocked
    else NotRun
  }

  /** The checks a run decides without the native steps. */
  function Others(e: Evidence): map<Check, Status> {
    map[StructuralMetadata := if e.structuralLog then Pass else Fail,
        ReferencePort := if e.portPassed then Pass else Fail,
        PortsAccount := if e.accountPresent then Pass else OpenGate,
        UpstreamAcceptance := OpenGate,
        SealedSource := Admission(e),
        PackageUpgrade := Upgrade(e)]
  }

  lemma OthersAre(e: Evidence)
    ensures OtherOutcome(e, Others(e))
    ensures forall i | 0 <= i < |ORDER| :: ORDER[i] !in Others(e)
  {
    hide Others, Admission, Upgrade;
    OthersHold(e);
    OneOutcome(e);
  }

  lemma OthersHold(e: Evidence)
    ensures var s := Others(e);
            && StructuralMetadata in s && s[StructuralMetadata] == (if e.structuralLog then Pass else Fail)
            && ReferencePort in s && s[ReferencePort] == (if e.portPassed then Pass else Fail)
            && PortsAccount in s && s[PortsAccount] == (if e.accountPresent then Pass else OpenGate)
            && UpstreamAcceptance in s && s[UpstreamAcceptance] == OpenGate
            && SealedSource in s && s[SealedSource] == Admission(e)
            && PackageUpgrade in s && s[PackageUpgrade] == Upgrade(e)
            && forall i | 0 <= i < |ORDER| :: ORDER[i] !in s
  {
    hide Admission, Upgrade;
  }

  lemma OneOutcome(e: Evidence)
    ensures Admission(e) == Pass <==> e.sealed.Verified?
    ensures Admission(e) == Fail <==> e.sealed.Unverified?
    ensures Admission(e) == Blocked <==> e.sealed.Absent? && e.release
    ensures Admission(e) == NotRun <==> e.sealed.Absent? && !e.release
    ensures Upgrade(e) == NotApplicable <==> !e.previousRelease
    ensures Upgrade(e) == Pass <==> UpgradePassed(e)
    ensures Upgrade(e) == Fail <==> UpgradeFailed(e)
    ensures Upgrade(e) == NotRun <==> e.previousRelease && !UpgradePassed(e) && !UpgradeFailed(e)
  {
  }

  lemma Combined(e: Evidence, native: map<Check, Status>)
    requires NativeOutcome(e, native)
    ensures var s := native + Others(e); NativeOutcome(e, s) && OtherOutcome(e, s) && forall c: Check :: c in s
  {
    hide Others, Judged;
    OthersAre(e);
    var s := native + Others(e);
    OthersKept(e, native);
    forall c: Check
      ensures c in s
    {
      KindOf(c);
    }
  }

  lemma OthersKept(e: Evidence, native: map<Check, Status>)
    requires OtherOutcome(e, Others(e))
    ensures OtherOutcome(e, native + Others(e))
  {
    hide Others, UpgradePassed, UpgradeFailed;
  }

  lemma TableDistinct()
    ensures Distinct(Table())
  {
    hide Steps;
  }

  /** The statuses, the state and the verdict of a run: a run is never PASS, however good its evidence. */
  method Decide(e: Evidence) returns (s: map<Check, Status>, state: State, verdict: Status)
    ensures NativeOutcome(e, s) && OtherOutcome(e, s)
    ensures forall c: Check :: c in s
    ensures state == LifecycleState(s)
    ensures verdict == if !e.outcome.Failed? && NothingFailed(e) then OpenGate else Fail
  {
    hide Others, Judged, OtherOutcome, LifecycleState, NothingFailed, Table;
    TableDistinct();
    var native := NativeStatuses(Table(), e.retained, e.outcome);
    s := native + Others(e);
    Combined(e, native);
    state := LifecycleState(s);
    verdict := if Fail in s.Values || e.outcome.Failed? then Fail else OpenGate;
    FailedIff(e, s);
  }

  // ---------------------------------------------------------------- What a state proves

  function Rank(state: State): nat {
    match state
    case Nothing => 0
    case Structural => 1
    case Built => 2
    case Installed => 3
    case Functional => 4
    case LifecycleVerified => 5
    case UpgradeVerified => 6
  }

  /** The native checks owed by rank `k`, from the third rank on. */
  function Owed(k: nat): set<Check> {
    (if k >= 2 then {PackageBuild} else {})
    + (if k >= 3 then {PackageInstall, PackageInspect} else {})
    + (if k >= 4 then {ServiceLifecycle, PutGetErase, RestartRecovery} else {})
    + (if k >= 5 then {ConfigPreservation, PackageRemove, ExternalConsumer} else {})
  }

  lemma NativePass(e: Evidence, s: map<Check, Status>, c: Check)
    requires NativeOutcome(e, s) && c in ORDER
    ensures c in s && (s[c] == Pass <==> !e.outcome.Skipped? && Steps(c) <= e.retained)
  {
    var i :| 0 <= i < |ORDER| && ORDER[i] == c;
  }

  lemma OwedPass(e: Evidence, s: map<Check, Status>, k: nat)
    requires NativeOutcome(e, s)
    ensures AllPass(s, Owed(k)) <==>
              (k >= 2 ==> !e.outcome.Skipped?) && (forall c | c in Owed(k) :: Steps(c) <= e.retained)
  {
    hide Steps, NativeOutcome;
    forall c | c in Owed(k)
      ensures c in s && (s[c] == Pass <==> !e.outcome.Skipped? && Steps(c) <= e.retained)
    {
      NativePass(e, s, c);
    }
    assert k >= 2 ==> PackageBuild in Owed(k);
    assert k < 2 ==> Owed(k) == {};
  }

  lemma RankIff(s: map<Check, Status>, k: nat)
    requires 1 <= k <= 6
    ensures Rank(LifecycleState(s)) >= k <==>
              && AllPass(s, {StructuralMetadata, ReferencePort})
              && (k >= 2 ==> AllPass(s, {SealedSource}))
              && AllPass(s, Owed(k))
              && (k >= 6 ==> AllPass(s, {PackageUpgrade}))
  {
    AllPassSplits(s, {SealedSource}, {PackageBuild});
    assert {SealedSource} + {PackageBuild} == {SealedSource, PackageBuild};
    OwedGrows(s, k);
  }

  lemma AllPassSplits(s: map<Check, Status>, a: set<Check>, b: set<Check>)
    ensures AllPass(s, a + b) <==> AllPass(s, a) && AllPass(s, b)
  {
  }

  lemma OwedGrows(s: map<Check, Status>, k: nat)
    ensures AllPass(s, Owed(k)) <==>
              && (k >= 2 ==> AllPass(s, {PackageBuild}))
              && (k >= 3 ==> AllPass(s, {PackageInstall, PackageInspect}))
              && (k >= 4 ==> AllPass(s, {ServiceLifecycle, PutGetErase, RestartRecovery}))
              && (k >= 5 ==> AllPass(s, {ConfigPreservation, PackageRemove, ExternalConsumer}))
  {
  }

  /** A state of rank `k` is reached exactly when every marker it stands for was retained by a native run. */
  lemma StateIsProven(e: Evidence, s: map<Check, Status>, k: nat)
    requires NativeOutcome(e, s) && OtherOutcome(e, s) && 1 <= k <= 6
    ensures Rank(LifecycleState(s)) >= k <==>
              && e.structuralLog && e.portPassed
              && (k >= 2 ==> e.sealed.Verified? && !e.outcome.Skipped?)
              && (k >= 2 ==> BuildStep in e.retained)
              && (k >= 3 ==> {InstallStep, FileInventory} <= e.retained)
              && (k >= 4 ==> {ServiceStart, GracefulShutdown, PutGetEraseStep, RestartStep} <= e.retained)
              && (k >= 5 ==> {ConsumerStep, ConfigStep, Uninstall} <= e.retained)
              && (k >= 6 ==> UpgradePassed(e))
  {
    hide Steps, NativeOutcome, LifecycleState, Owed;
    RankIff(s, k);
    OwedPass(e, s, k);
    OwedSteps(e.retained, k);
  }

  lemma OwedSteps(retained: set<Step>, k: nat)
    ensures (forall c | c in Owed(k) :: Steps(c) <= retained) <==>
              && (k >= 2 ==> BuildStep in retained)
              && (k >= 3 ==> {InstallStep, FileInventory} <= retained)
              && (k >= 4 ==> {ServiceStart, GracefulShutdown, PutGetEraseStep, RestartStep} <= retained)
              && (k >= 5 ==> {ConsumerStep, ConfigStep, Uninstall} <= retained)
  {
    hide Owed, Steps;
    OwedAre(k);
    MarkersAre(retained);
  }

  lemma OwedAre(k: nat)
    ensures forall c :: c in Owed(k) <==>
              || (k >= 2 && c == PackageBuild)
              || (k >= 3 && (c == PackageInstall || c == PackageInspect))
              || (k >= 4 && (c == ServiceLifecycle || c == PutGetErase || c == RestartRecovery))
              || (k >= 5 && (c == ConfigPreservation || c == PackageRemove || c == ExternalConsumer))
  {
  }

  lemma MarkersAre(retained: set<Step>)
    ensures Steps(PackageBuild) <= retained <==> BuildStep in retained
    ensures Steps(PackageInstall) <= retained <==> InstallStep in retained
    ensures Steps(PackageInspect) <= retained <==> FileInventory in retained
    ensures Steps(ServiceLifecycle) <= retained <==> {ServiceStart, GracefulShutdown} <= retained
    ensures Steps(PutGetErase) <= retained <==> PutGetEraseStep in retained
    ensures Steps(RestartRecovery) <= retained <==> RestartStep in retained
    ensures Steps(ConfigPreservation) <= retained <==> ConfigStep in retained
    ensures Steps(PackageRemove) <= retained <==> Uninstall in retained
    ensures Steps(ExternalConsumer) <= retained <==> ConsumerStep in retained
  {
  }

  // ---------------------------------------------------------------- Which step proves which check

  /** The check that a step's marker counts for. */
  function CheckOf(step: Step): Check {
    match step
    case BuildStep => PackageBuild
    case InstallStep => PackageInstall
    case FileInventory => PackageInspect
    case ConsumerStep => ExternalConsumer
    case ServiceStart => ServiceLifecycle
    case GracefulShutdown => ServiceLifecycle
    case PutGetEraseStep => PutGetErase
    case RestartStep => RestartRecovery
    case ConfigStep => ConfigPreservation
    case Uninstall => PackageRemove
  }

  /** The place of a native check in the run, from 1 on; the other checks have none. */
  function Place(c: Check): nat {
    match c
    case PackageBuild => 1
    case PackageInstall => 2
    case PackageInspect => 3
    case ExternalConsumer => 4
    case ServiceLifecycle => 5
    case PutGetErase => 6
    case RestartRecovery => 7
    case ConfigPreservation => 8
    case PackageRemove => 9
    case _ => 0
  }

  lemma PlaceIs(c: Check)
    requires Place(c) > 0
    ensures Place(c) <= |ORDER| == 9 && ORDER[Place(c) - 1] == c
  {
  }

  lemma StepsAre(c: Check, step: Step)
    requires Place(c) > 0
    ensures step in Steps(c) <==> CheckOf(step) == c
  {
  }

  /** All markers of the first `n` native checks were retained. */
  ghost predicate ProvenUpTo(retained: set<Step>, n: nat) {
    forall step: Step | Place(CheckOf(step)) <= n :: step in retained
  }

  lemma ProvenPrefix(retained: set<Step>, n: nat)
    requires n <= 9
    ensures ProvenUpTo(retained, n) <==> forall j | 0 <= j < n :: Table()[j].steps <= retained
  {
    if ProvenUpTo(retained, n) {
      forall j, step | 0 <= j < n && step in Steps(ORDER[j])
        ensures step in retained
      {
        PlaceOf(j);
        StepsAre(ORDER[j], step);
      }
    }
    if forall j | 0 <= j < n :: Table()[j].steps <= retained {
      forall step: Step | Place(CheckOf(step)) <= n
        ensures step in retained
      {
        var c := CheckOf(step);
        PlaceIs(c);
        StepsAre(c, step);
        assert Table()[Place(c) - 1].steps <= retained;
      }
    }
  }

  lemma PlaceOf(j: nat)
    requires j < 9
    ensures Place(ORDER[j]) == j + 1
  {
  }

  /** The statuses of a run that was not skipped, by the steps whose markers were retained. */
  lemma NativeIff(e: Evidence, s: map<Check, Status>, c: Check)
    requires NativeOutcome(e, s) && Place(c) > 0
    ensures c in s
    ensures e.outcome.Skipped? ==> s[c] == Blocked
    ensures !e.outcome.Skipped? ==>
              && (s[c] == Pass <==> forall step: Step | CheckOf(step) == c :: step in e.retained)
              && (s[c] == Fail <==> ProvenUpTo(e.retained, Place(c) - 1) && !ProvenUpTo(e.retained, Place(c)))
              && (s[c] == NotRun <==> s[c] != Pass && s[c] != Fail)
  {
    hide Steps, Place, CheckOf, ProvenUpTo;
    PlaceIs(c);
    var i := Place(c) - 1;
    assert Judged(Table(), e.retained, e.outcome, i, s[ORDER[i]]);
    ProvenPrefix(e.retained, i);
    ProvenPrefix(e.retained, i + 1);
    forall step: Step
      ensures step in Steps(c) <==> CheckOf(step) == c
    {
      StepsAre(c, step);
    }
  }

  /** More passed checks never lower the state. */
  lemma PassMonotone(s: map<Check, Status>, t: map<Check, Status>)
    requires forall c | c in s && s[c] == Pass :: c in t && t[c] == Pass
    ensures Rank(LifecycleState(s)) <= Rank(LifecycleState(t))
  {
    hide LifecycleState, Owed;
    var k := Rank(LifecycleState(s));
    if k > 0 {
      RankIff(s, k);
      RankIff(t, k);
    }
  }

  /** More retained markers never lower the state. */
  lemma StateMonotone(e: Evidence, more: set<Step>, s: map<Check, Status>, t: map<Check, Status>)
    requires e.retained <= more
    requires NativeOutcome(e, s) && OtherOutcome(e, s)
    requires NativeOutcome(e.(retained := more), t) && OtherOutcome(e.(retained := more), t)
    ensures Rank(LifecycleState(s)) <= Rank(LifecycleState(t))
  {
    hide LifecycleState, NativeOutcome, OtherOutcome, Steps;
    var k := Rank(LifecycleState(s));
    if k > 0 {
      StateIsProven(e, s, k);
      StateIsProven(e.(retained := more), t, k);
    }
  }
}
