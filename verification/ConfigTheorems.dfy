/** What the configuration lifecycle keeps over any sequence of startups, updates and power cuts. */
module ConfigTheorems {
  import opened ConfigModel
  import opened Octets
  import opened StorageHistory
  import opened StorageRecord
  import opened StorageRegister
  import opened StorageSlots

  // ------------------------------------------------------------ the migration loop

  /** The capacity the k-th migration step writes into: the two buffers take turns. */
  function StepCapacity(plan: Plan, k: nat): nat {
    if k % 2 == 0 then plan.candidateB.capacity else plan.candidateA.capacity
  }

  function MigrationStep(plan: Plan, version: nat, k: nat, x: bytes): Option<bytes>
    requires plan.adapter.migrateStep.Some?
  {
    var next := plan.adapter.migrateStep.value(version, x, StepCapacity(plan, k));
    if FitsBuffer(next, StepCapacity(plan, k)) then next else None
  }

  /** The first `n` migration steps composed: the last step applied to the composition of the others. */
  function Composition(plan: Plan, from: nat, x: bytes, n: nat): Option<bytes>
    requires n > 0 ==> plan.adapter.migrateStep.Some?
  {
    if n == 0 then Some(x)
    else
      var before := Composition(plan, from, x, n - 1);
      if before.None? then None else MigrationStep(plan, from + n - 1, n - 1, before.value)
  }

  lemma {:induction false} CompositionStaysNone(plan: Plan, from: nat, x: bytes, m: nat, n: nat)
    requires m <= n && plan.adapter.migrateStep.Some?
    requires Composition(plan, from, x, m).None?
    ensures Composition(plan, from, x, n).None?
    decreases n
  {
    if m < n {
      CompositionStaysNone(plan, from, x, m, n - 1);
    }
  }

  lemma {:induction false} LoopFollowsComposition(plan: Plan, from: nat, x: bytes, k: nat)
    requires from + k <= plan.adapter.currentSchemaVersion
    requires k > 0 ==> plan.adapter.migrateStep.Some?
    requires Composition(plan, from, x, k).Some?
    ensures var n := plan.adapter.currentSchemaVersion - from;
            Migrate(plan, from + k, Composition(plan, from, x, k).value, k, k % 2 == 0) ==
            (if k < n && (plan.adapter.migrateStep.None? || n > plan.adapter.maximumMigrationSteps) then None
             else Composition(plan, from, x, n))
    decreases plan.adapter.currentSchemaVersion - from - k
  {
    var n := plan.adapter.currentSchemaVersion - from;
    if k < n && plan.adapter.migrateStep.Some? {
      if k < plan.adapter.maximumMigrationSteps {
        if Composition(plan, from, x, k + 1).Some? {
          LoopFollowsComposition(plan, from, x, k + 1);
        } else {
          CompositionStaysNone(plan, from, x, k + 1, n);
        }
      }
    }
  }

  /** The versions that can be migrated at all. */
  predicate Migratable(adapter: Adapter, schema: nat) {
    && schema <= adapter.currentSchemaVersion
    && (schema < adapter.currentSchemaVersion ==>
          && adapter.migrateStep.Some?
          && adapter.currentSchemaVersion - schema <= adapter.maximumMigrationSteps)
  }

  /** Decoding and migrating in two swapped buffers is the composition of the steps. */
  lemma MigrationComposes(plan: Plan, schema: nat, raw: bytes)
    ensures var decoded := plan.adapter.decode(schema, raw, plan.candidateA.capacity);
            DecodeToCandidate(plan, schema, raw) ==
            (if !FitsBuffer(decoded, plan.candidateA.capacity) || !Migratable(plan.adapter, schema) then None
             else Composition(plan, schema, decoded.value, plan.adapter.currentSchemaVersion - schema))
  {
    var decoded := plan.adapter.decode(schema, raw, plan.candidateA.capacity);
    if FitsBuffer(decoded, plan.candidateA.capacity) && schema <= plan.adapter.currentSchemaVersion {
      LoopFollowsComposition(plan, schema, decoded.value, 0);
    }
  }

  // ------------------------------------------------------------ the invariant

  /** Decoding undoes encoding at the current version, for candidates the validators accept. */
  ghost predicate DecodeInvertsEncode(plan: Plan) {
    forall c: bytes ::
      var raw := plan.adapter.encodeCurrent(c, plan.raw.capacity);
      ValidCandidate(plan.adapter, c) && FitsBuffer(raw, plan.raw.capacity) ==>
        plan.adapter.decode(plan.adapter.currentSchemaVersion, raw.value, plan.candidateA.capacity) == Some(c)
        && 0 < |c| <= plan.candidateA.capacity
  }

  /** The stored content, read by this software, is the configuration `c`. */
  predicate LeadsTo(plan: Plan, content: Option<Content>, c: bytes) {
    content.Some? && DecodeToCandidate(plan, content.value.schema, content.value.payload) == Some(c)
  }

  /** Between operations: the store is in order; what is active was validated and the storage
      service builds on the newest record; and where the status says that desired and active
      configuration agree, the newest record leads to the active one. */
  ghost predicate LifeInvariant(setup: Setup, plan: Plan, l: Life) {
    && Invariant(setup, State(l.service, l.blobs))
    && (l.status.hasActiveConfig ==>
          && l.active.Some? && ValidCandidate(plan.adapter, l.active.value)
          && Based(setup, State(l.service, l.blobs)))
    && (l.status.desiredActiveAligned ==>
          l.status.hasActiveConfig && LeadsTo(plan, Stored(setup, l.blobs), l.active.value))
  }

  /** The write that an operation may make ends in an admissible way. */
  predicate WriteAllowed(setup: Setup, l: Life, outcome: WriteOutcome) {
    TornWrite(setup, l.service.format, l.blobs, Target(BaseOf(SelectRaw(setup, l.blobs))), outcome)
  }

  // ------------------------------------------------------------ persisting

  lemma SaveVerdict(setup: Setup, s: Service, blobs: Blobs, raw: bool, payload: bytes, outcome: WriteOutcome)
    ensures var out := Save(setup, s, blobs, raw, payload, outcome);
            out.ok <==> PersistenceSucceeded(MapPersistenceResult(out.service.lastSave))
  {
    hide SelectLatest, ReadSlot, Encode, Next, SaveBase, CoversBase;
  }

  lemma PersistEffect(setup: Setup, plan: Plan, l: Life, candidate: bytes, outcome: WriteOutcome)
    requires setup.keyA != setup.keyB && Invariant(setup, State(l.service, l.blobs))
    requires Based(setup, State(l.service, l.blobs)) && WriteAllowed(setup, l, outcome)
    ensures var out := Persist(setup, plan, l, candidate, outcome);
            var raw := plan.adapter.encodeCurrent(candidate, plan.raw.capacity);
            && Invariant(setup, State(out.service, out.blobs))
            && Based(setup, State(out.service, out.blobs))
            && out.active == l.active
            && out.status == l.status.(lastPersistenceResult := out.status.lastPersistenceResult)
            && out.service.format == l.service.format
            && (if PersistenceSucceeded(out.status.lastPersistenceResult) then
                  && FitsBuffer(raw, plan.raw.capacity)
                  && Stored(setup, out.blobs) == Some(Content(plan.adapter.currentSchemaVersion, raw.value))
                else SelectRaw(setup, out.blobs) == SelectRaw(setup, l.blobs))
            && (out.status.lastPersistenceResult == PrNoChange ==> out.blobs == l.blobs)
  {
    hide Save, SelectRaw, SlotsInOrder, Configurable, TornWrite, Accepts;
    var raw := plan.adapter.encodeCurrent(candidate, plan.raw.capacity);
    var schema := plan.adapter.currentSchemaVersion;
    if FitsBuffer(raw, plan.raw.capacity) && schema == l.service.format.schema
       && |raw.value| == l.service.format.payloadSize {
      SaveEffect(setup, l.service, l.blobs, true, raw.value, outcome);
      SaveService(setup, l.service, l.blobs, true, raw.value, outcome);
      SaveVerdict(setup, l.service, l.blobs, true, raw.value, outcome);
    }
  }

  lemma PersistedLeads(plan: Plan, c: bytes)
    requires DecodeInvertsEncode(plan) && ValidCandidate(plan.adapter, c)
    requires FitsBuffer(plan.adapter.encodeCurrent(c, plan.raw.capacity), plan.raw.capacity)
    ensures var raw := plan.adapter.encodeCurrent(c, plan.raw.capacity);
            LeadsTo(plan, Some(Content(plan.adapter.currentSchemaVersion, raw.value)), c)
  {
    hide ValidCandidate;
  }

  // ------------------------------------------------------------ each operation keeps the invariant

  lemma LoadBases(setup: Setup, l: Life, capacity: nat)
    requires Invariant(setup, State(l.service, l.blobs))
    ensures var (s, out) := LoadLatestRaw(setup, l.service, l.blobs, capacity);
            && Invariant(setup, State(s, l.blobs)) && s.format == l.service.format
            && (out.RawSuccess? || out.Empty? || out.NoValidRecord? ==> Based(setup, State(s, l.blobs)))
            && (out.RawSuccess? ==> Stored(setup, l.blobs) == Some(Content(out.record.schema, out.record.payload)))
            && (out.Empty? || out.NoValidRecord? ==> Stored(setup, l.blobs) == None)
  {
    hide SelectRaw, SlotsInOrder, Configurable;
  }

  lemma DefaultsKeep(setup: Setup, plan: Plan, l: Life, persist: bool, applies: bool, outcome: WriteOutcome)
    requires setup.keyA != setup.keyB && DecodeInvertsEncode(plan)
    requires LifeInvariant(setup, plan, l) && Based(setup, State(l.service, l.blobs)) && WriteAllowed(setup, l, outcome)
    requires !l.status.hasActiveConfig
    ensures LifeInvariant(setup, plan, UseDefaults(setup, plan, l, persist, applies, outcome))
  {
    hide Persist, Invariant, Based, Stored, ValidCandidate, DecodeToCandidate, DecodeInvertsEncode, WriteAllowed,
         LeadsTo;
    var built := plan.adapter.buildDefaults(plan.candidateA.capacity);
    if FitsBuffer(built, plan.candidateA.capacity) && ValidCandidate(plan.adapter, built.value) && applies && persist {
      var active := Commit(plan, l, built.value, FromDefaults);
      KeepsWriteAllowed(setup, l, active, outcome);
      PersistEffect(setup, plan, active, built.value, outcome);
      if PersistenceSucceeded(Persist(setup, plan, active, built.value, outcome).status.lastPersistenceResult) {
        PersistedLeads(plan, built.value);
      }
    }
  }

  lemma KeepsWriteAllowed(setup: Setup, l: Life, m: Life, outcome: WriteOutcome)
    requires WriteAllowed(setup, l, outcome) && m.service.format == l.service.format && m.blobs == l.blobs
    ensures WriteAllowed(setup, m, outcome)
  {
    hide TornWrite;
  }

  lemma StartupFromKeeps(setup: Setup, plan: Plan, l: Life, schema: nat, payload: bytes, applies: bool,
                         outcome: WriteOutcome)
    requires setup.keyA != setup.keyB && DecodeInvertsEncode(plan)
    requires LifeInvariant(setup, plan, l) && Based(setup, State(l.service, l.blobs)) && WriteAllowed(setup, l, outcome)
    requires !l.status.hasActiveConfig && Stored(setup, l.blobs) == Some(Content(schema, payload))
    ensures LifeInvariant(setup, plan, StartupFrom(setup, plan, l, schema, payload, applies, outcome))
  {
    hide Persist, Invariant, Based, Stored, ValidCandidate, DecodeToCandidate, DecodeInvertsEncode, WriteAllowed;
    var candidate := DecodeToCandidate(plan, schema, payload);
    if schema < plan.adapter.currentSchemaVersion && candidate.Some? && ValidCandidate(plan.adapter, candidate.value)
       && applies {
      var known := l.(status := l.status.(hasStoredSchema := true, storedSchemaVersion := schema));
      var active := Commit(plan, known, candidate.value, FromMigrated);
      KeepsWriteAllowed(setup, l, active, outcome);
      PersistEffect(setup, plan, active, candidate.value, outcome);
      if PersistenceSucceeded(Persist(setup, plan, active, candidate.value, outcome).status.lastPersistenceResult) {
        PersistedLeads(plan, candidate.value);
      }
    }
  }

  lemma StartupKeeps(setup: Setup, plan: Plan, l: Life, applies: bool, outcome: WriteOutcome)
    requires setup.keyA != setup.keyB && DecodeInvertsEncode(plan)
    requires LifeInvariant(setup, plan, l) && WriteAllowed(setup, l, outcome)
    ensures LifeInvariant(setup, plan, Startup(setup, plan, l, applies, outcome))
  {
    hide UseDefaults, StartupFrom, LoadLatestRaw, Invariant, Based, Stored, DecodeInvertsEncode, WriteAllowed,
         ValidCandidate, LeadsTo;
    if ValidPlan(plan) {
      LoadBases(setup, l, plan.raw.capacity);
      var (service, loaded) := LoadLatestRaw(setup, l.service, l.blobs, plan.raw.capacity);
      var l1 := l.(status := NO_STATUS).(service := service);
      KeepsWriteAllowed(setup, l, l1, outcome);
      match loaded
      case Empty => DefaultsKeep(setup, plan, l1, true, applies, outcome);
      case NoValidRecord => DefaultsKeep(setup, plan, l1, false, applies, outcome);
      case RawSuccess(r, _) => StartupFromKeeps(setup, plan, l1, r.schema, r.payload, applies, outcome);
      case _ =>
    }
  }

  /** The proposal an update would store, if it gets that far. */
  function Proposed(plan: Plan, l: Life, proposal: bytes): Option<bytes> {
    var decoded := plan.adapter.decode(plan.adapter.currentSchemaVersion, proposal, plan.candidateA.capacity);
    if
      && ValidPlan(plan) && l.status.hasActiveConfig && proposal != []
      && FitsBuffer(decoded, plan.candidateA.capacity) && ValidCandidate(plan.adapter, decoded.value)
    then decoded else None
  }

  /** The state in which an update has tried to store its candidate. */
  function AfterUpdateSave(setup: Setup, plan: Plan, l: Life, c: bytes, outcome: WriteOutcome): Life {
    Persist(setup, plan, l.(status := l.status.(lastPersistenceResult := PrNotAttempted)), c, outcome)
  }

  lemma UpdateShape(setup: Setup, plan: Plan, l: Life, proposal: bytes, applies: bool, outcome: WriteOutcome)
    ensures var u := Update(setup, plan, l, proposal, applies, outcome);
            match Proposed(plan, l, proposal)
            case None =>
              u == l.(status := l.status.(lastResult := u.status.lastResult,
                                          lastPersistenceResult := u.status.lastPersistenceResult))
              && u.status.lastResult in {ResInvalidArgument, ValidationFailed}
            case Some(c) =>
              var saved := AfterUpdateSave(setup, plan, l, c, outcome);
              if PersistenceSucceeded(saved.status.lastPersistenceResult) then u == ApplyStored(plan, saved, c, applies)
              else u == saved.(status := saved.status.(degraded := true, lastResult := PersistFailed))
  {
    hide Persist, ValidPlan, ValidCandidate, ApplyStored;
  }

  lemma ApplyStoredKeeps(setup: Setup, plan: Plan, l: Life, c: bytes, applies: bool)
    requires Invariant(setup, State(l.service, l.blobs)) && Based(setup, State(l.service, l.blobs))
    requires l.status.hasActiveConfig && l.active.Some? && ValidCandidate(plan.adapter, l.active.value)
    requires ValidCandidate(plan.adapter, c) && LeadsTo(plan, Stored(setup, l.blobs), c)
    ensures LifeInvariant(setup, plan, ApplyStored(plan, l, c, applies))
  {
    hide Invariant, Based, Stored, ValidCandidate, LeadsTo, Mode;
  }

  lemma RefusedSaveKeeps(setup: Setup, plan: Plan, l: Life, saved: Life)
    requires LifeInvariant(setup, plan, l)
    requires Invariant(setup, State(saved.service, saved.blobs)) && Based(setup, State(saved.service, saved.blobs))
    requires saved.active == l.active && SelectRaw(setup, saved.blobs) == SelectRaw(setup, l.blobs)
    requires saved.status.hasActiveConfig == l.status.hasActiveConfig
    requires saved.status.desiredActiveAligned == l.status.desiredActiveAligned
    ensures LifeInvariant(setup, plan, saved.(status := saved.status.(degraded := true, lastResult := PersistFailed)))
  {
    hide Invariant, Based, SelectRaw, ValidCandidate, LeadsTo;
  }

  lemma UpdateSaves(setup: Setup, plan: Plan, l: Life, c: bytes, outcome: WriteOutcome)
    requires setup.keyA != setup.keyB && DecodeInvertsEncode(plan)
    requires LifeInvariant(setup, plan, l) && WriteAllowed(setup, l, outcome) && l.status.hasActiveConfig
    requires ValidCandidate(plan.adapter, c)
    ensures var saved := AfterUpdateSave(setup, plan, l, c, outcome);
            && Invariant(setup, State(saved.service, saved.blobs)) && Based(setup, State(saved.service, saved.blobs))
            && saved.active == l.active
            && saved.status == l.status.(lastPersistenceResult := saved.status.lastPersistenceResult)
            && (if PersistenceSucceeded(saved.status.lastPersistenceResult)
                then LeadsTo(plan, Stored(setup, saved.blobs), c)
                else SelectRaw(setup, saved.blobs) == SelectRaw(setup, l.blobs))
  {
    hide Persist, Invariant, Based, SelectRaw, ValidCandidate, DecodeInvertsEncode, WriteAllowed, LeadsTo;
    var l1 := l.(status := l.status.(lastPersistenceResult := PrNotAttempted));
    KeepsWriteAllowed(setup, l, l1, outcome);
    PersistEffect(setup, plan, l1, c, outcome);
    if PersistenceSucceeded(Persist(setup, plan, l1, c, outcome).status.lastPersistenceResult) {
      PersistedLeads(plan, c);
    }
  }

  lemma ProposedIsValid(plan: Plan, l: Life, proposal: bytes)
    ensures var c := Proposed(plan, l, proposal);
            c.Some? ==> l.status.hasActiveConfig && ValidCandidate(plan.adapter, c.value)
  {
  }

  lemma UpdateKeeps(setup: Setup, plan: Plan, l: Life, proposal: bytes, applies: bool, outcome: WriteOutcome)
    requires setup.keyA != setup.keyB && DecodeInvertsEncode(plan)
    requires LifeInvariant(setup, plan, l) && WriteAllowed(setup, l, outcome)
    ensures LifeInvariant(setup, plan, Update(setup, plan, l, proposal, applies, outcome))
  {
    hide Update, AfterUpdateSave, ApplyStored, Proposed, Invariant, Based, Stored, ValidCandidate,
         DecodeInvertsEncode, WriteAllowed, LeadsTo, SelectRaw;
    UpdateShape(setup, plan, l, proposal, applies, outcome);
    ProposedIsValid(plan, l, proposal);
    var c := Proposed(plan, l, proposal);
    if c.Some? {
      UpdateSaves(setup, plan, l, c.value, outcome);
      var saved := AfterUpdateSave(setup, plan, l, c.value, outcome);
      if PersistenceSucceeded(saved.status.lastPersistenceResult) {
        ApplyStoredKeeps(setup, plan, saved, c.value, applies);
      } else {
        RefusedSaveKeeps(setup, plan, l, saved);
      }
    }
  }

  /** Only a candidate that passed every validator and was applied becomes active. */
  lemma OnlyValidatedBecomesActive(setup: Setup, plan: Plan, l: Life, proposal: bytes, applies: bool,
                                   outcome: WriteOutcome)
    ensures var s := Startup(setup, plan, l, applies, outcome);
            s.active == l.active || (applies && s.active.Some? && ValidCandidate(plan.adapter, s.active.value))
    ensures var u := Update(setup, plan, l, proposal, applies, outcome);
            u.active == l.active || (applies && u.active.Some? && ValidCandidate(plan.adapter, u.active.value)
                                     && PersistenceSucceeded(u.status.lastPersistenceResult))
  {
    hide SaveCurrentRaw, LoadLatestRaw, DecodeToCandidate, ValidCandidate, ValidPlan;
  }

  // ------------------------------------------------------------ a live update is stored first

  lemma ApplyStoredActive(plan: Plan, l: Life, c: bytes, applies: bool)
    ensures var u := ApplyStored(plan, l, c, applies);
            && u.blobs == l.blobs
            && (u.active == l.active || (applies && u.active == Some(c)))
            && (!applies ==> u.active == l.active)
  {
  }

  /** What an update stores does not depend on whether it can be applied; what it makes active is
      what it stored; and when it ends with a restart or recovery pending, the candidate it could
      not activate is what the store leads to. */
  lemma UpdateStoresFirst(setup: Setup, plan: Plan, l: Life, proposal: bytes, applies: bool, outcome: WriteOutcome)
    requires setup.keyA != setup.keyB && DecodeInvertsEncode(plan)
    requires LifeInvariant(setup, plan, l) && WriteAllowed(setup, l, outcome)
    ensures var u := Update(setup, plan, l, proposal, applies, outcome);
            var refused := Update(setup, plan, l, proposal, false, outcome);
            && u.blobs == refused.blobs && refused.active == l.active
            && (u.active != l.active ==> LeadsTo(plan, Stored(setup, u.blobs), u.active.value))
            && (u.status.lastResult in {ApplyFailed, RestartRequired} ==>
                  Proposed(plan, l, proposal).Some?
                  && LeadsTo(plan, Stored(setup, u.blobs), Proposed(plan, l, proposal).value))
  {
    hide Update, AfterUpdateSave, ApplyStored, Proposed, Invariant, Based, Stored, ValidCandidate,
         DecodeInvertsEncode, WriteAllowed, LeadsTo, SelectRaw, LifeInvariant;
    UpdateShape(setup, plan, l, proposal, applies, outcome);
    UpdateShape(setup, plan, l, proposal, false, outcome);
    ProposedIsValid(plan, l, proposal);
    var c := Proposed(plan, l, proposal);
    if c.Some? {
      UpdateSaves(setup, plan, l, c.value, outcome);
      var saved := AfterUpdateSave(setup, plan, l, c.value, outcome);
      ApplyStoredActive(plan, saved, c.value, applies);
      ApplyStoredActive(plan, saved, c.value, false);
    }
  }

  // ------------------------------------------------------------ starting afresh

  /** A new lifecycle on a new, opened storage service over the stored blobs. */
  function Fresh(setup: Setup, format: Format, blobs: Blobs): Life {
    Life(NO_STATUS, None, Begin(setup, FRESH, format, blobs, true).0, blobs)
  }

  lemma FreshLoads(setup: Setup, format: Format, blobs: Blobs, capacity: nat)
    requires Configurable(setup, format)
    requires Stored(setup, blobs).Some? && |Stored(setup, blobs).value.payload| <= capacity
    ensures var loaded := LoadLatestRaw(setup, Fresh(setup, format, blobs).service, blobs, capacity).1;
            && loaded.RawSuccess?
            && Stored(setup, blobs) == Some(Content(loaded.record.schema, loaded.record.payload))
  {
    hide SelectRaw, SelectLatest, Configurable;
  }

  /** A stored record of the current version is what every fresh startup activates, without
      writing anything. */
  lemma CurrentRecordStarts(setup: Setup, plan: Plan, format: Format, blobs: Blobs, c: bytes, outcome: WriteOutcome)
    requires Configurable(setup, format) && ValidPlan(plan)
    requires var stored := Stored(setup, blobs);
             && stored.Some? && stored.value.schema == plan.adapter.currentSchemaVersion
             && 0 < |stored.value.payload| <= plan.raw.capacity
    requires LeadsTo(plan, Stored(setup, blobs), c) && ValidCandidate(plan.adapter, c)
    ensures var s := Startup(setup, plan, Fresh(setup, format, blobs), true, outcome);
            && s.status.lastResult == ResSuccess && s.status.source == FromStored && s.status.desiredActiveAligned
            && s.active == Some(c) && s.blobs == blobs
  {
    hide LoadLatestRaw, Begin, Stored, Configurable, ValidPlan, DecodeToCandidate, ValidCandidate;
    FreshLoads(setup, format, blobs, plan.raw.capacity);
  }

  lemma PersistedContent(setup: Setup, plan: Plan, l: Life, c: bytes, outcome: WriteOutcome)
    requires setup.keyA != setup.keyB && Invariant(setup, State(l.service, l.blobs))
    requires Based(setup, State(l.service, l.blobs)) && WriteAllowed(setup, l, outcome)
    requires DecodeInvertsEncode(plan) && ValidCandidate(plan.adapter, c)
    ensures var out := Persist(setup, plan, l, c, outcome);
            var stored := Stored(setup, out.blobs);
            PersistenceSucceeded(out.status.lastPersistenceResult) ==>
              && stored.Some? && stored.value.schema == plan.adapter.currentSchemaVersion
              && 0 < |stored.value.payload| <= plan.raw.capacity && LeadsTo(plan, stored, c)
  {
    hide Persist, Invariant, Based, SelectRaw, ValidCandidate, DecodeInvertsEncode, WriteAllowed, LeadsTo;
    PersistEffect(setup, plan, l, c, outcome);
    if PersistenceSucceeded(Persist(setup, plan, l, c, outcome).status.lastPersistenceResult) {
      PersistedLeads(plan, c);
    }
  }

  /** The state in which a startup that found an old record saves the migrated candidate. */
  function BeforeMigratedSave(setup: Setup, plan: Plan, l: Life, c: bytes): Life {
    var (service, loaded) := LoadLatestRaw(setup, l.service, l.blobs, plan.raw.capacity);
    var schema := if loaded.RawSuccess? then loaded.record.schema else 0;
    Commit(plan, Life(NO_STATUS.(hasStoredSchema := true, storedSchemaVersion := schema), l.active, service, l.blobs),
           c, FromMigrated)
  }

  /** A startup that finds an old record which migrates to `c`. */
  predicate Migrates(setup: Setup, plan: Plan, l: Life, c: bytes) {
    var stored := Stored(setup, l.blobs);
    && ValidPlan(plan) && l.service.isOpen
    && stored.Some? && stored.value.schema < plan.adapter.currentSchemaVersion
    && 0 < |stored.value.payload| <= plan.raw.capacity
    && LeadsTo(plan, stored, c) && ValidCandidate(plan.adapter, c)
  }

  lemma OpenLoads(setup: Setup, s: Service, blobs: Blobs, capacity: nat)
    requires s.isOpen && Stored(setup, blobs).Some? && |Stored(setup, blobs).value.payload| <= capacity
    ensures var loaded := LoadLatestRaw(setup, s, blobs, capacity).1;
            loaded.RawSuccess? && Stored(setup, blobs) == Some(Content(loaded.record.schema, loaded.record.payload))
  {
    hide SelectRaw;
  }

  lemma MigratingStartup(setup: Setup, plan: Plan, l: Life, c: bytes, outcome: WriteOutcome)
    requires Migrates(setup, plan, l, c)
    ensures var saved := Persist(setup, plan, BeforeMigratedSave(setup, plan, l, c), c, outcome);
            var s := Startup(setup, plan, l, true, outcome);
            && s.blobs == saved.blobs && s.active == saved.active
            && (s.status.lastResult == Migrated <==> PersistenceSucceeded(saved.status.lastPersistenceResult))
  {
    hide LoadLatestRaw, Stored, DecodeToCandidate, ValidCandidate, ValidPlan, Persist;
    OpenLoads(setup, l.service, l.blobs, plan.raw.capacity);
  }

  lemma MigratedMeansMigrates(setup: Setup, plan: Plan, l: Life, applies: bool, outcome: WriteOutcome)
    requires Startup(setup, plan, l, applies, outcome).status.lastResult == Migrated
    ensures var s := Startup(setup, plan, l, applies, outcome);
            applies && s.active.Some? && Migrates(setup, plan, l, s.active.value)
  {
    hide SaveCurrentRaw, SelectRaw, DecodeToCandidate, ValidCandidate, ValidPlan;
  }

  lemma BeforeSaveBased(setup: Setup, plan: Plan, l: Life, c: bytes, outcome: WriteOutcome)
    requires Invariant(setup, State(l.service, l.blobs)) && Migrates(setup, plan, l, c)
             && WriteAllowed(setup, l, outcome)
    ensures var b := BeforeMigratedSave(setup, plan, l, c);
            && Invariant(setup, State(b.service, b.blobs)) && Based(setup, State(b.service, b.blobs))
            && WriteAllowed(setup, b, outcome) && b.active == Some(c) && b.blobs == l.blobs
  {
    hide LoadLatestRaw, Stored, DecodeToCandidate, ValidCandidate, ValidPlan, Invariant, Based, WriteAllowed;
    LoadBases(setup, l, plan.raw.capacity);
    OpenLoads(setup, l.service, l.blobs, plan.raw.capacity);
    KeepsWriteAllowed(setup, l, BeforeMigratedSave(setup, plan, l, c), outcome);
  }

  /** A startup that reports Migrated has made its migration durable: any later fresh startup
      succeeds from the stored record, with the same configuration, and writes nothing. */
  lemma MigrationIsDurable(setup: Setup, plan: Plan, format: Format, l: Life, applies: bool,
                           outcome: WriteOutcome, later: WriteOutcome)
    requires setup.keyA != setup.keyB && DecodeInvertsEncode(plan) && Configurable(setup, format)
    requires Invariant(setup, State(l.service, l.blobs)) && WriteAllowed(setup, l, outcome)
    requires Startup(setup, plan, l, applies, outcome).status.lastResult == Migrated
    ensures var first := Startup(setup, plan, l, applies, outcome);
            var second := Startup(setup, plan, Fresh(setup, format, first.blobs), true, later);
            && second.status.lastResult == ResSuccess && second.status.source == FromStored
            && second.active == first.active && second.blobs == first.blobs
  {
    hide Startup, Persist, BeforeMigratedSave, Stored, Invariant, Based, WriteAllowed, LeadsTo, ValidCandidate,
         DecodeInvertsEncode, Fresh, Configurable;
    MigratedMeansMigrates(setup, plan, l, applies, outcome);
    var first := Startup(setup, plan, l, applies, outcome);
    var c := first.active.value;
    var b := BeforeMigratedSave(setup, plan, l, c);
    MigratingStartup(setup, plan, l, c, outcome);
    BeforeSaveBased(setup, plan, l, c, outcome);
    PersistedContent(setup, plan, b, c, outcome);
    CurrentRecordStarts(setup, plan, format, first.blobs, c, later);
  }

  /** When the supply fails while the migrated record is being written, a retry on a fresh instance
      reaches the same configuration, from the old record or from the new one. */
  lemma MigrationRetry(setup: Setup, plan: Plan, format: Format, l: Life, c: bytes,
                       outcome: WriteOutcome, later: WriteOutcome)
    requires setup.keyA != setup.keyB && DecodeInvertsEncode(plan) && Configurable(setup, format)
    requires Invariant(setup, State(l.service, l.blobs)) && WriteAllowed(setup, l, outcome)
    requires Migrates(setup, plan, l, c)
    ensures var cut := Startup(setup, plan, l, true, outcome).blobs;
            var retry := Startup(setup, plan, Fresh(setup, format, cut), true, later);
            && retry.active == Some(c)
            && (Stored(setup, cut) == Stored(setup, l.blobs)
                || (retry.status.lastResult == ResSuccess && retry.blobs == cut))
  {
    hide Startup, Persist, BeforeMigratedSave, SelectRaw, Invariant, Based, WriteAllowed, LeadsTo, ValidCandidate,
         DecodeInvertsEncode, Configurable, ValidPlan, Begin;
    var b := BeforeMigratedSave(setup, plan, l, c);
    MigratingStartup(setup, plan, l, c, outcome);
    BeforeSaveBased(setup, plan, l, c, outcome);
    PersistEffect(setup, plan, b, c, outcome);
    PersistedContent(setup, plan, b, c, outcome);
    var saved := Persist(setup, plan, b, c, outcome);
    if PersistenceSucceeded(saved.status.lastPersistenceResult) {
      CurrentRecordStarts(setup, plan, format, saved.blobs, c, later);
    } else {
      var fresh' := Fresh(setup, format, saved.blobs);
      FreshIsOpen(setup, format, saved.blobs);
      MigratingStartup(setup, plan, fresh', c, later);
      PersistKeepsActive(setup, plan, BeforeMigratedSave(setup, plan, fresh', c), c, later);
      CommitActive(setup, plan, fresh', c);
    }
  }

  lemma FreshIsOpen(setup: Setup, format: Format, blobs: Blobs)
    requires Configurable(setup, format)
    ensures Fresh(setup, format, blobs).service.isOpen && Fresh(setup, format, blobs).blobs == blobs
  {
    hide SelectLatest, Configurable;
  }

  lemma PersistKeepsActive(setup: Setup, plan: Plan, l: Life, c: bytes, outcome: WriteOutcome)
    ensures Persist(setup, plan, l, c, outcome).active == l.active
  {
    hide SaveCurrentRaw;
  }

  lemma CommitActive(setup: Setup, plan: Plan, l: Life, c: bytes)
    ensures BeforeMigratedSave(setup, plan, l, c).active == Some(c)
  {
    hide LoadLatestRaw;
  }

  // ------------------------------------------------------------ runs

  datatype LifeEvent =
    | StartupEvent(applies: bool, outcome: WriteOutcome)
    | UpdateEvent(proposal: bytes, applies: bool, outcome: WriteOutcome)
    // The supply fails during the write of a startup or an update; a fresh instance is opened.
    | StartupCut(applies: bool, outcome: WriteOutcome, format: Format)
    | UpdateCut(proposal: bytes, applies: bool, outcome: WriteOutcome, format: Format)
    // A restart or a power cut at any other moment.
    | RestartEvent(outcome: WriteOutcome, format: Format)

  function LifeStep(setup: Setup, plan: Plan, l: Life, e: LifeEvent): Life {
    match e
    case StartupEvent(applies, outcome) => Startup(setup, plan, l, applies, outcome)
    case UpdateEvent(proposal, applies, outcome) => Update(setup, plan, l, proposal, applies, outcome)
    case StartupCut(applies, outcome, format) =>
      Fresh(setup, format, Startup(setup, plan, l, applies, outcome).blobs)
    case UpdateCut(proposal, applies, outcome, format) =>
      Fresh(setup, format, Update(setup, plan, l, proposal, applies, outcome).blobs)
    case RestartEvent(_, format) => Fresh(setup, format, l.blobs)
  }

  ghost predicate IsLifeRun(setup: Setup, plan: Plan, lives: seq<Life>, events: seq<LifeEvent>) {
    && |lives| == |events| + 1
    && (forall i :: 0 <= i < |events| ==>
          && WriteAllowed(setup, lives[i], events[i].outcome)
          && lives[i + 1] == LifeStep(setup, plan, lives[i], events[i]))
  }

  lemma FreshInvariant(setup: Setup, plan: Plan, format: Format, l: Life)
    requires LifeInvariant(setup, plan, l)
    ensures LifeInvariant(setup, plan, Fresh(setup, format, l.blobs))
  {
    hide SelectRaw, SelectLatest, SlotsInOrder, Configurable;
  }

  /** Over any sequence of startups, updates and power cuts the lifecycle's invariant holds: what
      is active was validated and applied, and where the status says so the newest record leads to it. */
  lemma {:induction false} LifeRunKeeps(setup: Setup, plan: Plan, lives: seq<Life>, events: seq<LifeEvent>)
    requires setup.keyA != setup.keyB && DecodeInvertsEncode(plan)
    requires IsLifeRun(setup, plan, lives, events) && LifeInvariant(setup, plan, lives[0])
    ensures LifeInvariant(setup, plan, lives[|events|])
    decreases |events|
  {
    hide Startup, Update, Fresh, LifeInvariant, WriteAllowed, DecodeInvertsEncode;
    var n := |events|;
    if n > 0 {
      LifeRunKeeps(setup, plan, lives[..n], events[..n - 1]);
      var l := lives[n - 1];
      match events[n - 1]
      case StartupEvent(applies, outcome) => StartupKeeps(setup, plan, l, applies, outcome);
      case UpdateEvent(proposal, applies, outcome) => UpdateKeeps(setup, plan, l, proposal, applies, outcome);
      case StartupCut(applies, outcome, format) =>
        StartupKeeps(setup, plan, l, applies, outcome);
        FreshInvariant(setup, plan, format, Startup(setup, plan, l, applies, outcome));
      case UpdateCut(proposal, applies, outcome, format) =>
        UpdateKeeps(setup, plan, l, proposal, applies, outcome);
        FreshInvariant(setup, plan, format, Update(setup, plan, l, proposal, applies, outcome));
      case RestartEvent(_, format) => FreshInvariant(setup, plan, format, l);
    }
  }
}
