/** The configuration lifecycle as functions: load, decode, migrate, validate, apply, persist. */
module ConfigModel {
  import opened Octets
  import opened StorageRecord
  import opened StorageSlots

  type bytes = seq<octet>

  datatype ApplyMode = Live | NeedsRestart

  /** The application's callbacks. Output capacities are passed where the callback receives them;
      an absent optional callback is None. Whether `apply` succeeds is said with each operation. */
  datatype Adapter = Adapter(
    currentSchemaVersion: u16,
    maximumMigrationSteps: u16,
    buildDefaults: nat -> Option<bytes>,
    decode: (nat, bytes, nat) -> Option<bytes>,
    migrateStep: Option<(nat, bytes, nat) -> Option<bytes>>,
    validateCurrent: bytes -> bool,
    validateSemantic: bytes -> bool,
    validateHardware: Option<bytes -> bool>,
    encodeCurrent: (bytes, nat) -> Option<bytes>,
    classify: Option<bytes -> ApplyMode>)

  /** A memory range. */
  datatype Buffer = Buffer(address: nat, capacity: nat)

  datatype Plan = Plan(
    adapter: Adapter,
    raw: Buffer,
    candidateA: Buffer,
    candidateB: Buffer,
    allowDefaultsForCorruptStorage: bool)

  predicate RangesOverlap(left: Buffer, right: Buffer) {
    if left.address >= right.address then left.address - right.address < right.capacity
    else right.address - left.address < left.capacity
  }

  predicate Holds(range: Buffer, address: nat) {
    range.address <= address < range.address + range.capacity
  }

  /** The overlap test is exact: two nonempty ranges overlap when they share an address. */
  lemma OverlapExact(left: Buffer, right: Buffer)
    requires left.capacity > 0 && right.capacity > 0
    ensures RangesOverlap(left, right) <==> exists p :: Holds(left, p) && Holds(right, p)
  {
    var p := if left.address >= right.address then left.address else right.address;
    assert RangesOverlap(left, right) ==> Holds(left, p) && Holds(right, p);
    assert forall q :: Holds(left, q) && Holds(right, q) ==> RangesOverlap(left, right);
  }

  predicate ValidPlan(plan: Plan) {
    && plan.raw.capacity > 0 && plan.candidateA.capacity > 0 && plan.candidateB.capacity > 0
    && !RangesOverlap(plan.raw, plan.candidateA)
    && !RangesOverlap(plan.raw, plan.candidateB)
    && !RangesOverlap(plan.candidateA, plan.candidateB)
  }

  /** No address belongs to both ranges. */
  ghost predicate Apart(left: Buffer, right: Buffer) {
    forall p :: Holds(left, p) ==> !Holds(right, p)
  }

  lemma OverlapMeets(left: Buffer, right: Buffer)
    requires left.capacity > 0 && right.capacity > 0
    ensures RangesOverlap(left, right) <==> !Apart(left, right)
  {
    OverlapExact(left, right);
  }

  /** A plan is valid exactly when its three buffers are nonempty and no address belongs to two of them. */
  lemma ValidPlanExact(plan: Plan)
    ensures ValidPlan(plan) <==>
            && plan.raw.capacity > 0 && plan.candidateA.capacity > 0 && plan.candidateB.capacity > 0
            && Apart(plan.raw, plan.candidateA)
            && Apart(plan.raw, plan.candidateB)
            && Apart(plan.candidateA, plan.candidateB)
  {
    hide RangesOverlap, Apart;
    if plan.raw.capacity > 0 && plan.candidateA.capacity > 0 && plan.candidateB.capacity > 0 {
      OverlapMeets(plan.raw, plan.candidateA);
      OverlapMeets(plan.raw, plan.candidateB);
      OverlapMeets(plan.candidateA, plan.candidateB);
    }
  }

  predicate FitsBuffer(data: Option<bytes>, capacity: nat) {
    data.Some? && 0 < |data.value| <= capacity
  }

  // ------------------------------------------------------------ status

  datatype Source = NoSource | FromStored | FromDefaults | FromMigrated

  datatype Result =
    | ResNotAttempted | ResSuccess | ResNoChange | DefaultsApplied | Migrated | RestartRequired | RecoveryRequired
    | ResInvalidArgument | LoadFailed | UnsupportedVersion | MigrationFailed | ValidationFailed
    | ApplyFailed | PersistFailed

  datatype PersistResult =
    | PrNotAttempted | PrSuccess | PrNoChange | PrInvalidArgument | PrValidationFailure
    | PrBackendFailure | PrVerifyFailure

  datatype Status = Status(
    source: Source,
    hasStoredSchema: bool,
    storedSchemaVersion: nat,
    hasActiveConfig: bool,
    activeSchemaVersion: nat,
    desiredActiveAligned: bool,
    restartRequired: bool,
    recoveryRequired: bool,
    degraded: bool,
    lastResult: Result,
    lastPersistenceResult: PersistResult)

  const NO_STATUS := Status(NoSource, false, 0, false, 0, false, false, false, false, ResNotAttempted, PrNotAttempted)

  /** The lifecycle with the storage below it and the configuration the application runs on. */
  datatype Life = Life(status: Status, active: Option<bytes>, service: Service, blobs: Blobs)

  function Failed(l: Life, result: Result, recoveryRequired: bool): Life {
    var s := l.status.(lastResult := result);
    l.(status := if recoveryRequired then s.(recoveryRequired := true, degraded := true) else s)
  }

  // ------------------------------------------------------------ decoding and migration

  /** The migration loop: one step per version, from one candidate buffer into the other. */
  function Migrate(plan: Plan, version: nat, candidate: bytes, steps: nat, inA: bool): Option<bytes>
    decreases plan.adapter.currentSchemaVersion - version
  {
    if version >= plan.adapter.currentSchemaVersion then
      if version == plan.adapter.currentSchemaVersion then Some(candidate) else None
    else if plan.adapter.migrateStep.None? || steps >= plan.adapter.maximumMigrationSteps then None
    else
      var capacity := if inA then plan.candidateB.capacity else plan.candidateA.capacity;
      var next := plan.adapter.migrateStep.value(version, candidate, capacity);
      if !FitsBuffer(next, capacity) then None else Migrate(plan, version + 1, next.value, steps + 1, !inA)
  }

  function DecodeToCandidate(plan: Plan, schema: nat, raw: bytes): Option<bytes> {
    var decoded := plan.adapter.decode(schema, raw, plan.candidateA.capacity);
    if !FitsBuffer(decoded, plan.candidateA.capacity) then None else Migrate(plan, schema, decoded.value, 0, true)
  }

  predicate ValidCandidate(adapter: Adapter, candidate: bytes) {
    && adapter.validateCurrent(candidate)
    && adapter.validateSemantic(candidate)
    && (adapter.validateHardware.None? || adapter.validateHardware.value(candidate))
  }

  // ------------------------------------------------------------ persisting and applying

  function MapPersistenceResult(result: OperationResult): PersistResult {
    match result
    case Success => PrSuccess
    case NoChange => PrNoChange
    case InvalidArgument => PrInvalidArgument
    case ValidationFailure => PrValidationFailure
    case BackendFailure => PrBackendFailure
    case VerifyFailure => PrVerifyFailure
    case _ => PrBackendFailure
  }

  predicate PersistenceSucceeded(r: PersistResult) {
    r == PrSuccess || r == PrNoChange
  }

  /** Encodes the candidate and saves it; the status records how the persistence ended. */
  function Persist(setup: Setup, plan: Plan, l: Life, candidate: bytes, outcome: WriteOutcome): Life {
    var raw := plan.adapter.encodeCurrent(candidate, plan.raw.capacity);
    if !FitsBuffer(raw, plan.raw.capacity) then
      l.(status := l.status.(lastPersistenceResult := PrInvalidArgument))
    else
      var out := SaveCurrentRaw(setup, l.service, l.blobs, plan.adapter.currentSchemaVersion, raw.value, outcome);
      l.(status := l.status.(lastPersistenceResult := MapPersistenceResult(out.service.lastSave)),
         service := out.service, blobs := out.blobs)
  }

  function Commit(plan: Plan, l: Life, candidate: bytes, source: Source): Life {
    l.(active := Some(candidate),
       status := l.status.(source := source, hasActiveConfig := true,
                           activeSchemaVersion := plan.adapter.currentSchemaVersion))
  }

  function PersistRefused(l: Life): Life {
    l.(status := l.status.(desiredActiveAligned := false, degraded := true, lastResult := PersistFailed))
  }

  /** The stored configuration is now the active one. */
  function Aligned(plan: Plan, l: Life, result: Result): Life {
    l.(status := l.status.(storedSchemaVersion := plan.adapter.currentSchemaVersion,
                           desiredActiveAligned := true, lastResult := result))
  }

  // ------------------------------------------------------------ startup

  function UseDefaults(setup: Setup, plan: Plan, l: Life, persist: bool, applies: bool, outcome: WriteOutcome): Life {
    var built := plan.adapter.buildDefaults(plan.candidateA.capacity);
    if !FitsBuffer(built, plan.candidateA.capacity) then Failed(l, ResInvalidArgument, true)
    else if !ValidCandidate(plan.adapter, built.value) then Failed(l, ValidationFailed, true)
    else if !applies then Failed(l, ApplyFailed, true)
    else
      var active := Commit(plan, l, built.value, FromDefaults);
      if !persist then
        active.(status := active.status.(desiredActiveAligned := false, recoveryRequired := true, degraded := true,
                                         lastResult := RecoveryRequired))
      else
        var saved := Persist(setup, plan, active, built.value, outcome);
        if !PersistenceSucceeded(saved.status.lastPersistenceResult) then PersistRefused(saved)
        else Aligned(plan, saved.(status := saved.status.(hasStoredSchema := true)), DefaultsApplied)
  }

  /** Startup from a record that the storage returned. */
  function StartupFrom(setup: Setup, plan: Plan, l: Life, schema: nat, payload: bytes, applies: bool,
                       outcome: WriteOutcome): Life
  {
    var known := l.(status := l.status.(hasStoredSchema := true, storedSchemaVersion := schema));
    if schema > plan.adapter.currentSchemaVersion then Failed(known, UnsupportedVersion, true)
    else
      var candidate := DecodeToCandidate(plan, schema, payload);
      if candidate.None? then
        Failed(known, if schema < plan.adapter.currentSchemaVersion then MigrationFailed else ValidationFailed, true)
      else if !ValidCandidate(plan.adapter, candidate.value) then Failed(known, ValidationFailed, true)
      else if !applies then Failed(known, ApplyFailed, true)
      else
        var migrated := schema < plan.adapter.currentSchemaVersion;
        var active := Commit(plan, known, candidate.value, if migrated then FromMigrated else FromStored);
        if !migrated then
          active.(status := active.status.(desiredActiveAligned := true, lastResult := ResSuccess))
        else
          var saved := Persist(setup, plan, active, candidate.value, outcome);
          if !PersistenceSucceeded(saved.status.lastPersistenceResult) then PersistRefused(saved)
          else Aligned(plan, saved, Migrated)
  }

  function Startup(setup: Setup, plan: Plan, l: Life, applies: bool, outcome: WriteOutcome): Life {
    var blank := l.(status := NO_STATUS);
    if !ValidPlan(plan) then Failed(blank, ResInvalidArgument, false)
    else
      var (service, loaded) := LoadLatestRaw(setup, l.service, l.blobs, plan.raw.capacity);
      var l1 := blank.(service := service);
      match loaded
      case Empty => UseDefaults(setup, plan, l1, true, applies, outcome)
      case NoValidRecord =>
        if plan.allowDefaultsForCorruptStorage then UseDefaults(setup, plan, l1, false, applies, outcome)
        else Failed(l1, RecoveryRequired, true)
      case RawSuccess(r, _) =>
        if r.payload == [] then Failed(l1, LoadFailed, true)
        else StartupFrom(setup, plan, l1, r.schema, r.payload, applies, outcome)
      case _ => Failed(l1, LoadFailed, true)
  }

  // ------------------------------------------------------------ update

  function Mode(adapter: Adapter, candidate: bytes): ApplyMode {
    if adapter.classify.None? then Live else adapter.classify.value(candidate)
  }

  /** The end of an update whose candidate has been stored. */
  function ApplyStored(plan: Plan, l: Life, candidate: bytes, applies: bool): Life {
    var stored := l.status.(hasStoredSchema := true, storedSchemaVersion := plan.adapter.currentSchemaVersion);
    if Mode(plan.adapter, candidate).NeedsRestart? then
      l.(status := stored.(desiredActiveAligned := false, restartRequired := true, recoveryRequired := false,
                           degraded := false, lastResult := RestartRequired))
    else if !applies then
      l.(status := stored.(desiredActiveAligned := false, restartRequired := false, recoveryRequired := true,
                           degraded := true, lastResult := ApplyFailed))
    else
      var active := Commit(plan, l.(status := stored), candidate, FromStored);
      active.(status := active.status.(
        desiredActiveAligned := true, restartRequired := false, recoveryRequired := false, degraded := false,
        lastResult := if stored.lastPersistenceResult == PrNoChange then ResNoChange else ResSuccess))
  }

  function Update(setup: Setup, plan: Plan, l: Life, proposal: bytes, applies: bool, outcome: WriteOutcome): Life {
    if !ValidPlan(plan) || !l.status.hasActiveConfig || proposal == [] then Failed(l, ResInvalidArgument, false)
    else
      var l1 := l.(status := l.status.(lastPersistenceResult := PrNotAttempted));
      var decoded := plan.adapter.decode(plan.adapter.currentSchemaVersion, proposal, plan.candidateA.capacity);
      if !FitsBuffer(decoded, plan.candidateA.capacity) || !ValidCandidate(plan.adapter, decoded.value) then
        l1.(status := l1.status.(lastResult := ValidationFailed))
      else
        var saved := Persist(setup, plan, l1, decoded.value, outcome);
        if !PersistenceSucceeded(saved.status.lastPersistenceResult) then
          saved.(status := saved.status.(degraded := true, lastResult := PersistFailed))
        else ApplyStored(plan, saved, decoded.value, applies)
  }
}
