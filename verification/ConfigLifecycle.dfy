/** The configuration lifecycle over its three buffers, proved against the functions of ConfigModel. */
module ConfigLifecycle {
  import opened ConfigModel
  import opened Octets
  import opened StorageSlots
  import opened StorageRecord
  import StorageService

  /** Writes `data` to the front of a buffer. */
  method CopyInto(buffer: array<octet>, data: bytes)
    requires |data| <= buffer.Length
    modifies buffer
    ensures buffer[..|data|] == data
  {
    for i := 0 to |data|
      invariant buffer[..i] == data[..i]
    {
      buffer[i] := data[i];
    }
  }

  class ConfigLifecycle {
    const plan: Plan
    const storage: StorageService.StorageService
    const backend: StorageService.StorageBackend
    const raw: array<octet>
    const candidateA: array<octet>
    const candidateB: array<octet>
    var status: Status
    /** The configuration last handed to the application. */
    var active: Option<bytes>

    predicate Valid()
      reads this, storage
    {
      && storage.Valid() && storage.backend == backend && !storage.rawBaseForSave
      && raw.Length == plan.raw.capacity
      && candidateA.Length == plan.candidateA.capacity && candidateB.Length == plan.candidateB.capacity
      && raw != candidateA && raw != candidateB && candidateA != candidateB
      && storage.recordBuffer !in {raw, candidateA, candidateB}
    }

    function Setup(): Setup {
      storage.setup
    }

    function State(): Life
      reads this, storage, backend
    {
      Life(status, active, storage.State(), backend.blobs)
    }

    constructor (plan: Plan, storage: StorageService.StorageService)
      requires storage.Valid() && !storage.rawBaseForSave
      ensures Valid() && this.plan == plan && this.storage == storage && this.backend == storage.backend
      ensures fresh(raw) && fresh(candidateA) && fresh(candidateB)
      ensures State() == Life(NO_STATUS, None, storage.State(), storage.backend.blobs)
    {
      this.plan, this.storage, this.backend := plan, storage, storage.backend;
      raw := new octet[plan.raw.capacity];
      candidateA := new octet[plan.candidateA.capacity];
      candidateB := new octet[plan.candidateB.capacity];
      status, active := NO_STATUS, None;
    }

    method Fail(result: Result, recoveryRequired: bool)
      modifies `status
      ensures State() == Failed(old(State()), result, recoveryRequired)
    {
      status := status.(lastResult := result);
      if recoveryRequired {
        status := status.(recoveryRequired := true, degraded := true);
      }
    }

    /** One migration step from one buffer into another. */
    method MigrateInto(version: nat, from: array<octet>, size: nat, into: array<octet>) returns (next: nat)
      requires plan.adapter.migrateStep.Some? && from != into && size <= from.Length
      modifies into
      ensures var out := plan.adapter.migrateStep.value(version, old(from[..size]), into.Length);
              if FitsBuffer(out, into.Length) then next == |out.value| && into[..next] == out.value else next == 0
    {
      var out := plan.adapter.migrateStep.value(version, from[..size], into.Length);
      if !FitsBuffer(out, into.Length) {
        return 0;
      }
      CopyInto(into, out.value);
      return |out.value|;
    }

    /** Decodes the raw buffer and migrates the candidate, the two candidate buffers taking turns
        as input and output. */
    method DecodeToCandidate(schema: nat, rawSize: nat)
      returns (ok: bool, candidate: array<octet>, candidateSize: nat, migrated: bool)
      requires Valid() && rawSize <= raw.Length
      modifies candidateA, candidateB
      ensures var out := ConfigModel.DecodeToCandidate(plan, schema, raw[..rawSize]);
              && ok == out.Some?
              && candidate in {candidateA, candidateB} && candidateSize <= candidate.Length
              && (ok ==>
                  candidate[..candidateSize] == out.value && migrated == (schema < plan.adapter.currentSchemaVersion))
    {
      candidate, candidateSize, migrated := candidateA, 0, false;
      var decoded := plan.adapter.decode(schema, raw[..rawSize], candidateA.Length);
      if !FitsBuffer(decoded, candidateA.Length) {
        return false, candidate, candidateSize, migrated;
      }
      CopyInto(candidateA, decoded.value);
      candidateSize := |decoded.value|;
      var version, steps, nextBuffer := schema, 0, candidateB;
      ghost var whole := ConfigModel.DecodeToCandidate(plan, schema, raw[..rawSize]);
      while version < plan.adapter.currentSchemaVersion
        invariant version == schema + steps && migrated == (steps > 0)
        invariant (candidate == candidateA && nextBuffer == candidateB)
                  || (candidate == candidateB && nextBuffer == candidateA)
        invariant candidateSize <= candidate.Length
        invariant whole == Migrate(plan, version, candidate[..candidateSize], steps, candidate == candidateA)
        invariant steps > 0 ==> version <= plan.adapter.currentSchemaVersion
      {
        if plan.adapter.migrateStep.None? || steps >= plan.adapter.maximumMigrationSteps {
          return false, candidate, candidateSize, migrated;
        }
        var nextSize := MigrateInto(version, candidate, candidateSize, nextBuffer);
        if nextSize == 0 {
          return false, candidate, candidateSize, migrated;
        }
        candidate, nextBuffer, candidateSize := nextBuffer, candidate, nextSize;
        version, steps, migrated := version + 1, steps + 1, true;
      }
      ok := version == plan.adapter.currentSchemaVersion;
    }

    method PersistCandidate(candidate: bytes, outcome: WriteOutcome)
      requires Valid()
      modifies this, storage, storage.recordBuffer, backend, raw
      ensures Valid() && State() == Persist(Setup(), plan, old(State()), candidate, outcome)
    {
      hide SaveCurrentRaw;
      var encoded := plan.adapter.encodeCurrent(candidate, raw.Length);
      if !FitsBuffer(encoded, raw.Length) {
        status := status.(lastPersistenceResult := PrInvalidArgument);
        return;
      }
      CopyInto(raw, encoded.value);
      var ok := storage.SaveCurrentRaw(plan.adapter.currentSchemaVersion, raw[..|encoded.value|], outcome);
      status := status.(lastPersistenceResult := MapPersistenceResult(storage.lastSaveResult));
    }

    method ApplyAndCommit(candidate: bytes, source: Source, applies: bool) returns (ok: bool)
      modifies this
      ensures ok == applies
      ensures State() == if applies then Commit(plan, old(State()), candidate, source)
                         else Failed(old(State()), ApplyFailed, true)
    {
      if !applies {
        Fail(ApplyFailed, true);
        return false;
      }
      active := Some(candidate);
      status := status.(source := source, hasActiveConfig := true,
                        activeSchemaVersion := plan.adapter.currentSchemaVersion);
      return true;
    }

    method UseDefaults(persistAfterApply: bool, applies: bool, outcome: WriteOutcome)
      requires Valid()
      modifies this, storage, storage.recordBuffer, backend, raw, candidateA
      ensures Valid()
      ensures State() == ConfigModel.UseDefaults(Setup(), plan, old(State()), persistAfterApply, applies, outcome)
    {
      hide Persist, ValidCandidate;
      var built := plan.adapter.buildDefaults(candidateA.Length);
      if !FitsBuffer(built, candidateA.Length) {
        Fail(ResInvalidArgument, true);
        return;
      }
      CopyInto(candidateA, built.value);
      var candidate := candidateA[..|built.value|];
      if !ValidCandidate(plan.adapter, candidate) {
        Fail(ValidationFailed, true);
        return;
      }
      var applied := ApplyAndCommit(candidate, FromDefaults, applies);
      if !applied {
        return;
      }
      if !persistAfterApply {
        status := status.(desiredActiveAligned := false, recoveryRequired := true, degraded := true,
                          lastResult := RecoveryRequired);
        return;
      }
      PersistCandidate(candidate, outcome);
      if !PersistenceSucceeded(status.lastPersistenceResult) {
        status := status.(desiredActiveAligned := false, degraded := true, lastResult := PersistFailed);
        return;
      }
      status := status.(hasStoredSchema := true, storedSchemaVersion := plan.adapter.currentSchemaVersion,
                        desiredActiveAligned := true, lastResult := DefaultsApplied);
    }

    method Startup(applies: bool, outcome: WriteOutcome) returns (result: Result)
      requires Valid()
      modifies this, storage, storage.recordBuffer, backend, raw, candidateA, candidateB
      ensures Valid()
      ensures State() == ConfigModel.Startup(Setup(), plan, old(State()), applies, outcome)
      ensures result == status.lastResult
    {
      hide ConfigModel.UseDefaults, ConfigModel.StartupFrom, StorageSlots.LoadLatestRaw, ValidPlan;
      status := NO_STATUS;
      if !ValidPlan(plan) {
        Fail(ResInvalidArgument, false);
        return status.lastResult;
      }
      var loaded := storage.LoadLatestRaw(raw.Length);
      RawSizeFits(loaded, old(State()));
      match loaded {
        case Empty =>
          UseDefaults(true, applies, outcome);
        case NoValidRecord =>
          if plan.allowDefaultsForCorruptStorage {
            UseDefaults(false, applies, outcome);
          } else {
            Fail(RecoveryRequired, true);
          }
        case RawSuccess(record, _) =>
          CopyInto(raw, record.payload);
          if record.payload == [] {
            Fail(LoadFailed, true);
          } else {
            StartupFrom(record.schema, |record.payload|, applies, outcome);
          }
        case _ =>
          Fail(LoadFailed, true);
      }
      return status.lastResult;
    }

    lemma RawSizeFits(loaded: RawLoad, l: Life)
      requires loaded == StorageSlots.LoadLatestRaw(Setup(), l.service, l.blobs, raw.Length).1
      ensures loaded.RawSuccess? ==> |loaded.record.payload| <= raw.Length
    {
      hide SelectRaw;
    }

    method StartupFrom(schema: nat, payloadSize: nat, applies: bool, outcome: WriteOutcome)
      requires Valid() && payloadSize <= raw.Length
      modifies this, storage, storage.recordBuffer, backend, raw, candidateA, candidateB
      ensures Valid()
      ensures State() ==
              ConfigModel.StartupFrom(Setup(), plan, old(State()), schema, old(raw[..payloadSize]), applies, outcome)
    {
      hide Persist, ValidCandidate, ConfigModel.DecodeToCandidate;
      status := status.(hasStoredSchema := true, storedSchemaVersion := schema);
      if schema > plan.adapter.currentSchemaVersion {
        Fail(UnsupportedVersion, true);
        return;
      }
      var ok, buffer, size, migrated := DecodeToCandidate(schema, payloadSize);
      if !ok {
        Fail(if schema < plan.adapter.currentSchemaVersion then MigrationFailed else ValidationFailed, true);
        return;
      }
      var candidate := buffer[..size];
      if !ValidCandidate(plan.adapter, candidate) {
        Fail(ValidationFailed, true);
        return;
      }
      var applied := ApplyAndCommit(candidate, if migrated then FromMigrated else FromStored, applies);
      if !applied {
        return;
      }
      if !migrated {
        status := status.(desiredActiveAligned := true, lastResult := ResSuccess);
        return;
      }
      PersistCandidate(candidate, outcome);
      if !PersistenceSucceeded(status.lastPersistenceResult) {
        status := status.(desiredActiveAligned := false, degraded := true, lastResult := PersistFailed);
        return;
      }
      status := status.(storedSchemaVersion := plan.adapter.currentSchemaVersion,
                        desiredActiveAligned := true, lastResult := Migrated);
    }

    method Update(proposal: bytes, applies: bool, outcome: WriteOutcome) returns (result: Result)
      requires Valid()
      modifies this, storage, storage.recordBuffer, backend, raw, candidateA
      ensures Valid()
      ensures State() == ConfigModel.Update(Setup(), plan, old(State()), proposal, applies, outcome)
      ensures result == status.lastResult
    {
      hide Persist, ValidCandidate, ValidPlan, ApplyStored;
      if !ValidPlan(plan) || !status.hasActiveConfig || proposal == [] {
        Fail(ResInvalidArgument, false);
        return status.lastResult;
      }
      status := status.(lastPersistenceResult := PrNotAttempted);
      var decoded := plan.adapter.decode(plan.adapter.currentSchemaVersion, proposal, candidateA.Length);
      if !FitsBuffer(decoded, candidateA.Length) || !ValidCandidate(plan.adapter, decoded.value) {
        status := status.(lastResult := ValidationFailed);
        return status.lastResult;
      }
      CopyInto(candidateA, decoded.value);
      PersistAndApply(candidateA[..|decoded.value|], applies, outcome);
      return status.lastResult;
    }

    /** A live update is stored before it is applied. */
    method PersistAndApply(candidate: bytes, applies: bool, outcome: WriteOutcome)
      requires Valid()
      modifies this, storage, storage.recordBuffer, backend, raw
      ensures Valid()
      ensures var saved := Persist(Setup(), plan, old(State()), candidate, outcome);
              State() == if PersistenceSucceeded(saved.status.lastPersistenceResult) then
                           ApplyStored(plan, saved, candidate, applies)
                         else saved.(status := saved.status.(degraded := true, lastResult := PersistFailed))
    {
      hide Persist, ApplyStored;
      PersistCandidate(candidate, outcome);
      if !PersistenceSucceeded(status.lastPersistenceResult) {
        status := status.(degraded := true, lastResult := PersistFailed);
        return;
      }
      ApplyUpdate(candidate, applies);
    }

    method ApplyUpdate(candidate: bytes, applies: bool)
      modifies this
      ensures State() == ApplyStored(plan, old(State()), candidate, applies)
    {
      status := status.(hasStoredSchema := true, storedSchemaVersion := plan.adapter.currentSchemaVersion);
      if Mode(plan.adapter, candidate).NeedsRestart? {
        status := status.(desiredActiveAligned := false, restartRequired := true, recoveryRequired := false,
                          degraded := false, lastResult := RestartRequired);
        return;
      }
      if !applies {
        status := status.(desiredActiveAligned := false, restartRequired := false, recoveryRequired := true,
                          degraded := true, lastResult := ApplyFailed);
        return;
      }
      active := Some(candidate);
      status := status.(source := FromStored, hasActiveConfig := true,
                        activeSchemaVersion := plan.adapter.currentSchemaVersion,
                        desiredActiveAligned := true, restartRequired := false, recoveryRequired := false,
                        degraded := false,
                        lastResult := if status.lastPersistenceResult == PrNoChange then ResNoChange else ResSuccess);
    }
  }
}
