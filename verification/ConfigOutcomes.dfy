/** How a startup and an update end, from what is stored and what the application's callbacks say. */
module ConfigOutcomes {
  import opened ConfigModel
  import opened ConfigTheorems
  import opened Octets
  import opened StorageHistory
  import opened StorageRecord
  import opened StorageRegister
  import opened StorageSlots

  /** Something is stored, and no version of the software can read any of it. */
  predicate Damaged(setup: Setup, blobs: Blobs) {
    var a, b := BlobAt(blobs, setup.keyA), BlobAt(blobs, setup.keyB);
    && (a != [] || b != [])
    && DecodeRaw(a, setup.capacity).None? && DecodeRaw(b, setup.capacity).None?
  }

  predicate Untouched(setup: Setup, blobs: Blobs) {
    BlobAt(blobs, setup.keyA) == [] && BlobAt(blobs, setup.keyB) == []
  }

  /** Defaults that can be built and that every validator accepts. */
  predicate Defaults(plan: Plan, c: bytes) {
    && plan.adapter.buildDefaults(plan.candidateA.capacity) == Some(c)
    && 0 < |c| <= plan.candidateA.capacity
    && plan.adapter.validateCurrent(c) && plan.adapter.validateSemantic(c)
    && (plan.adapter.validateHardware.Some? ==> plan.adapter.validateHardware.value(c))
  }

  /** The status of a startup that could not activate anything. */
  predicate NothingActive(s: Status, result: Result) {
    s.lastResult == result && !s.hasActiveConfig && !s.desiredActiveAligned && s.source == NoSource
  }

  // ------------------------------------------------------------ what can be stored

  /** The configuration encodes to a payload that the opened storage format takes. */
  predicate Storable(plan: Plan, format: Format, c: bytes) {
    var raw := plan.adapter.encodeCurrent(c, plan.raw.capacity);
    && raw.Some? && 0 < |raw.value| <= plan.raw.capacity
    && plan.adapter.currentSchemaVersion == format.schema && |raw.value| == format.payloadSize
    && format.validator(raw.value)
  }

  /** Exactly when persisting succeeds: the configuration can be stored, and the write completes or is
      not needed. */
  lemma PersistExact(setup: Setup, plan: Plan, l: Life, c: bytes, outcome: WriteOutcome)
    requires setup.keyA != setup.keyB && Invariant(setup, State(l.service, l.blobs))
    requires Based(setup, State(l.service, l.blobs)) && WriteAllowed(setup, l, outcome)
    ensures var raw := plan.adapter.encodeCurrent(c, plan.raw.capacity);
            PersistenceSucceeded(Persist(setup, plan, l, c, outcome).status.lastPersistenceResult) <==>
              && Storable(plan, l.service.format, c)
              && (outcome.Complete?
                  || Stored(setup, l.blobs) == Some(Content(plan.adapter.currentSchemaVersion, raw.value)))
  {
    hide Save, Stored, SelectRaw, SlotsInOrder, Configurable, TornWrite, Accepts;
    var raw := plan.adapter.encodeCurrent(c, plan.raw.capacity);
    if FitsBuffer(raw, plan.raw.capacity) && plan.adapter.currentSchemaVersion == l.service.format.schema
       && |raw.value| == l.service.format.payloadSize {
      BasedIsGrounded(setup, l.service, l.blobs);
      SaveExact(setup, l.service, l.blobs, true, raw.value, outcome);
    }
  }

  /** Which persistence result is reported, and why. */
  lemma PersistAnswer(setup: Setup, plan: Plan, l: Life, c: bytes, outcome: WriteOutcome)
    requires setup.keyA != setup.keyB && Invariant(setup, State(l.service, l.blobs))
    requires Based(setup, State(l.service, l.blobs)) && WriteAllowed(setup, l, outcome)
    ensures var result := Persist(setup, plan, l, c, outcome).status.lastPersistenceResult;
            var raw := plan.adapter.encodeCurrent(c, plan.raw.capacity);
            var format := l.service.format;
            var shaped :=
              && raw.Some? && 0 < |raw.value| <= plan.raw.capacity
              && plan.adapter.currentSchemaVersion == format.schema && |raw.value| == format.payloadSize;
            var valid := shaped && format.validator(raw.value);
            var same := valid && Stored(setup, l.blobs) == Some(Content(format.schema, raw.value));
            && (result == PrInvalidArgument <==> !shaped)
            && (result == PrValidationFailure <==> shaped && !valid)
            && (result == PrNoChange <==> same)
            && (result == PrSuccess <==> valid && !same && outcome.Complete?)
            && (result == PrBackendFailure <==>
                  valid && !same && outcome.Torn? && outcome.written != HEADER_SIZE + |raw.value|)
            && (result == PrVerifyFailure <==>
                  valid && !same && outcome.Torn? && outcome.written == HEADER_SIZE + |raw.value|)
  {
    hide Save, Stored, SelectRaw, SlotsInOrder, Configurable, TornWrite, Accepts;
    var raw := plan.adapter.encodeCurrent(c, plan.raw.capacity);
    if FitsBuffer(raw, plan.raw.capacity) && plan.adapter.currentSchemaVersion == l.service.format.schema
       && |raw.value| == l.service.format.payloadSize {
      BasedIsGrounded(setup, l.service, l.blobs);
      SaveExact(setup, l.service, l.blobs, true, raw.value, outcome);
    }
  }

  lemma BasedIsGrounded(setup: Setup, s: Service, blobs: Blobs)
    requires Based(setup, State(s, blobs))
    ensures Grounded(setup, s.format, blobs, s.rawBase)
  {
    hide SelectRaw, Accepts;
  }

  // ------------------------------------------------------------ startup

  lemma StartupLoads(setup: Setup, plan: Plan, l: Life)
    requires l.service.isOpen
    ensures var (s, out) := LoadLatestRaw(setup, l.service, l.blobs, plan.raw.capacity);
            && (Damaged(setup, l.blobs) <==> out == NoValidRecord)
            && (Untouched(setup, l.blobs) <==> out == Empty)
  {
    hide DecodeRaw, LoadLatestRaw, Stored;
    RawLoadExact(setup, l.service, l.blobs, plan.raw.capacity);
  }

  /** A damaged store is never written: without the option nothing is activated and recovery is asked
      for; with it the defaults run, if they are valid and can be applied, and recovery is asked for. */
  lemma DamagedStart(setup: Setup, plan: Plan, l: Life, applies: bool, outcome: WriteOutcome)
    requires ValidPlan(plan) && l.service.isOpen && Damaged(setup, l.blobs)
    ensures var s := Startup(setup, plan, l, applies, outcome);
            && s.blobs == l.blobs && s.status.recoveryRequired && s.status.degraded && !s.status.desiredActiveAligned
            && (!plan.allowDefaultsForCorruptStorage ==>
                  s.active == l.active && NothingActive(s.status, RecoveryRequired))
            && (plan.allowDefaultsForCorruptStorage ==>
                  if applies && exists c :: Defaults(plan, c) then
                    && s.active.Some? && Defaults(plan, s.active.value)
                    && s.status.hasActiveConfig && s.status.source == FromDefaults
                    && s.status.lastResult == RecoveryRequired
                  else s.active == l.active && !s.status.hasActiveConfig && s.status.lastResult != RecoveryRequired)
  {
    hide LoadLatestRaw, Damaged, Untouched, ValidPlan, Persist, StartupFrom;
    StartupLoads(setup, plan, l);
    DefaultsShape(plan);
  }

  lemma DefaultsShape(plan: Plan)
    ensures var built := plan.adapter.buildDefaults(plan.candidateA.capacity);
            FitsBuffer(built, plan.candidateA.capacity) && ValidCandidate(plan.adapter, built.value) <==>
              built.Some? && Defaults(plan, built.value)
  {
  }

  /** The very first start: the defaults become active and are stored; when they cannot be stored they
      run all the same, and the status says so. */
  lemma FirstStart(setup: Setup, plan: Plan, l: Life, c: bytes, outcome: WriteOutcome)
    requires setup.keyA != setup.keyB && Invariant(setup, State(l.service, l.blobs))
    requires ValidPlan(plan) && l.service.isOpen && Untouched(setup, l.blobs) && Defaults(plan, c)
    requires WriteAllowed(setup, l, outcome)
    ensures var s := Startup(setup, plan, l, true, outcome);
            var raw := plan.adapter.encodeCurrent(c, plan.raw.capacity);
            && s.active == Some(c) && s.status.hasActiveConfig && s.status.source == FromDefaults
            && s.status.lastResult in {DefaultsApplied, PersistFailed}
            && (s.status.lastResult == DefaultsApplied <==>
                  Storable(plan, l.service.format, c) && outcome.Complete?)
            && (s.status.lastResult == DefaultsApplied ==>
                  && s.status.desiredActiveAligned && raw.Some?
                  && Stored(setup, s.blobs) == Some(Content(plan.adapter.currentSchemaVersion, raw.value)))
            && (s.status.lastResult == PersistFailed ==>
                  && s.status.degraded && !s.status.desiredActiveAligned && Stored(setup, s.blobs) == None)
  {
    hide LoadLatestRaw, Damaged, Untouched, ValidPlan, Persist, StartupFrom, Invariant, Based, Stored, WriteAllowed,
         SelectRaw;
    StartupLoads(setup, plan, l);
    DefaultsShape(plan);
    LoadBases(setup, l, plan.raw.capacity);
    var (service, _) := LoadLatestRaw(setup, l.service, l.blobs, plan.raw.capacity);
    var l1 := Commit(plan, l.(status := NO_STATUS).(service := service), c, FromDefaults);
    KeepsWriteAllowed(setup, l, l1, outcome);
    PersistEffect(setup, plan, l1, c, outcome);
    PersistExact(setup, plan, l1, c, outcome);
    NothingStored(setup, l.blobs);
    SameNewest(setup, l1.blobs, Persist(setup, plan, l1, c, outcome).blobs);
  }

  lemma NothingStored(setup: Setup, blobs: Blobs)
    requires Untouched(setup, blobs)
    ensures Stored(setup, blobs) == None
  {
    NothingInNothing(setup.capacity);
  }

  lemma SameNewest(setup: Setup, before: Blobs, after: Blobs)
    ensures SelectRaw(setup, before) == SelectRaw(setup, after) ==> Stored(setup, before) == Stored(setup, after)
  {
    hide SelectRaw;
  }

  /** A stored record that cannot be used: nothing is activated or written, recovery is asked for, and
      the result says why. */
  lemma UnusableRecord(setup: Setup, plan: Plan, l: Life, applies: bool, outcome: WriteOutcome)
    requires ValidPlan(plan) && l.service.isOpen && Stored(setup, l.blobs).Some?
    ensures var s := Startup(setup, plan, l, applies, outcome);
            var stored := Stored(setup, l.blobs).value;
            var current := plan.adapter.currentSchemaVersion;
            var fits := 0 < |stored.payload| <= plan.raw.capacity;
            var candidate := DecodeToCandidate(plan, stored.schema, stored.payload);
            var usable := fits && stored.schema <= current && candidate.Some?
                && ValidCandidate(plan.adapter, candidate.value);
            && (!usable || !applies ==>
                  && s.active == l.active && s.blobs == l.blobs
                  && !s.status.hasActiveConfig && s.status.recoveryRequired && s.status.degraded
                  && s.status.lastResult ==
                     if !fits then LoadFailed
                     else if stored.schema > current then UnsupportedVersion
                     else if candidate.None? && stored.schema < current then MigrationFailed
                     else if !usable then ValidationFailed
                     else ApplyFailed)
            && (usable && applies ==> s.active == candidate && s.status.hasActiveConfig)
            && s.status.hasStoredSchema == fits
  {
    hide DecodeRaw, Persist, ValidPlan, ValidCandidate, DecodeToCandidate, LoadLatestRaw, Stored;
    RawLoadExact(setup, l.service, l.blobs, plan.raw.capacity);
    LoadedIsStored(setup, l, plan.raw.capacity);
    if LoadLatestRaw(setup, l.service, l.blobs, plan.raw.capacity).1.RawSuccess? {
      PersistKeepsTheRest(setup, plan, outcome);
    }
  }

  lemma LoadedIsStored(setup: Setup, l: Life, capacity: nat)
    requires l.service.isOpen && Stored(setup, l.blobs).Some?
    ensures var out := LoadLatestRaw(setup, l.service, l.blobs, capacity).1;
            && (out.RawSuccess? || out == InsufficientCapacity)
            && (out.RawSuccess? ==> Stored(setup, l.blobs) == Some(Content(out.record.schema, out.record.payload)))
  {
    hide SelectRaw;
  }

  lemma PersistKeepsTheRest(setup: Setup, plan: Plan, outcome: WriteOutcome)
    ensures forall l: Life, c: bytes {:trigger Persist(setup, plan, l, c, outcome)} ::
              var out := Persist(setup, plan, l, c, outcome);
              out.active == l.active
              && out.status == l.status.(lastPersistenceResult := out.status.lastPersistenceResult)
  {
    hide SaveCurrentRaw;
  }

  /** A startup that migrates activates the migrated configuration, and reports Migrated exactly when it
      could also store it. */
  lemma MigratedExact(setup: Setup, plan: Plan, l: Life, c: bytes, outcome: WriteOutcome)
    requires setup.keyA != setup.keyB && Invariant(setup, State(l.service, l.blobs))
    requires WriteAllowed(setup, l, outcome) && Migrates(setup, plan, l, c)
    ensures var s := Startup(setup, plan, l, true, outcome);
            && s.active == Some(c)
            && (s.status.lastResult == Migrated <==> Storable(plan, l.service.format, c) && outcome.Complete?)
  {
    hide Startup, Persist, BeforeMigratedSave, Invariant, Based, WriteAllowed, Stored, ValidPlan, ValidCandidate,
         Storable;
    var b := BeforeMigratedSave(setup, plan, l, c);
    MigratingStartup(setup, plan, l, c, outcome);
    BeforeSaveBased(setup, plan, l, c, outcome);
    PersistExact(setup, plan, b, c, outcome);
    PersistKeepsActive(setup, plan, b, c, outcome);
    BeforeSaveFormat(setup, plan, l, c);
  }

  lemma BeforeSaveFormat(setup: Setup, plan: Plan, l: Life, c: bytes)
    ensures BeforeMigratedSave(setup, plan, l, c).service.format == l.service.format
  {
    hide SelectRaw, Stored;
  }

  // ------------------------------------------------------------ update

  /** The application asks for a restart before this configuration may run. */
  predicate OnlyAfterRestart(adapter: Adapter, c: bytes) {
    adapter.classify.Some? && adapter.classify.value(c) == NeedsRestart
  }

  /** A proposal that decodes at the current version, fits and passes every validator. */
  predicate Acceptable(plan: Plan, l: Life, proposal: bytes, c: bytes) {
    && ValidPlan(plan) && l.status.hasActiveConfig && proposal != []
    && plan.adapter.decode(plan.adapter.currentSchemaVersion, proposal, plan.candidateA.capacity) == Some(c)
    && 0 < |c| <= plan.candidateA.capacity
    && plan.adapter.validateCurrent(c) && plan.adapter.validateSemantic(c)
    && (plan.adapter.validateHardware.Some? ==> plan.adapter.validateHardware.value(c))
  }

  lemma AcceptableIsProposed(plan: Plan, l: Life, proposal: bytes, c: bytes)
    ensures Acceptable(plan, l, proposal, c) <==> Proposed(plan, l, proposal) == Some(c)
  {
    hide ValidPlan;
  }

  /** A proposal that is not acceptable changes neither store nor active configuration. */
  lemma RefusedUpdate(setup: Setup, plan: Plan, l: Life, proposal: bytes, applies: bool, outcome: WriteOutcome)
    requires forall c :: !Acceptable(plan, l, proposal, c)
    ensures var u := Update(setup, plan, l, proposal, applies, outcome);
            && u.blobs == l.blobs && u.active == l.active && u.service == l.service
            && u.status.lastResult ==
               if ValidPlan(plan) && l.status.hasActiveConfig && proposal != [] then ValidationFailed
               else ResInvalidArgument
  {
    hide ValidPlan, Persist, ApplyStored, Acceptable;
    if Proposed(plan, l, proposal).Some? {
      AcceptableIsProposed(plan, l, proposal, Proposed(plan, l, proposal).value);
    }
  }

  /** How an acceptable update ends: unstored it changes nothing; stored it becomes active exactly when
      it may run without a restart and can be applied; and the status says which. */
  lemma AcceptedUpdate(setup: Setup, plan: Plan, l: Life, proposal: bytes, c: bytes, applies: bool,
                       outcome: WriteOutcome)
    requires setup.keyA != setup.keyB && LifeInvariant(setup, plan, l) && WriteAllowed(setup, l, outcome)
    requires Acceptable(plan, l, proposal, c)
    ensures var u := Update(setup, plan, l, proposal, applies, outcome);
            var raw := plan.adapter.encodeCurrent(c, plan.raw.capacity);
            var restart := OnlyAfterRestart(plan.adapter, c);
            var same := raw.Some?
                && Stored(setup, l.blobs) == Some(Content(plan.adapter.currentSchemaVersion, raw.value));
            && (u.status.lastResult == PersistFailed <==>
                  !Storable(plan, l.service.format, c) || !(outcome.Complete? || same)) &&
            if u.status.lastResult == PersistFailed then
              && u.active == l.active && Stored(setup, u.blobs) == Stored(setup, l.blobs) && u.status.degraded
            else
              && raw.Some? && Stored(setup, u.blobs) == Some(Content(plan.adapter.currentSchemaVersion, raw.value))
              && u.active == (if !restart && applies then Some(c) else l.active)
              && u.status.desiredActiveAligned == (!restart && applies)
              && u.status.restartRequired == restart && u.status.recoveryRequired == (!restart && !applies)
              && u.status.degraded == (!restart && !applies)
              && (u.status.lastResult == RestartRequired <==> restart)
              && (u.status.lastResult == ApplyFailed <==> !restart && !applies)
              && (u.status.lastResult in {ResSuccess, ResNoChange} <==> !restart && applies)
              && (u.status.lastResult == ResNoChange <==> !restart && applies && same)
              && (u.status.lastResult == ResNoChange ==> u.blobs == l.blobs)
  {
    hide ValidPlan, Persist, Acceptable, Invariant, Based, Stored, WriteAllowed, SelectRaw, Proposed, LeadsTo,
         ValidCandidate;
    AcceptableIsProposed(plan, l, proposal, c);
    UpdateShape(setup, plan, l, proposal, applies, outcome);
    ActiveIsBased(setup, plan, l, proposal, c);
    var l1 := l.(status := l.status.(lastPersistenceResult := PrNotAttempted));
    KeepsWriteAllowed(setup, l, l1, outcome);
    PersistEffect(setup, plan, l1, c, outcome);
    PersistExact(setup, plan, l1, c, outcome);
    PersistAnswer(setup, plan, l1, c, outcome);
    SameNewest(setup, l.blobs, Persist(setup, plan, l1, c, outcome).blobs);
  }

  lemma ActiveIsBased(setup: Setup, plan: Plan, l: Life, proposal: bytes, c: bytes)
    requires LifeInvariant(setup, plan, l) && Acceptable(plan, l, proposal, c)
    ensures Invariant(setup, State(l.service, l.blobs)) && Based(setup, State(l.service, l.blobs))
  {
    hide Invariant, Based, Stored, ValidCandidate, LeadsTo, ValidPlan;
  }

  // ------------------------------------------------------------ the versions in the status

  /** The version fields say what is active and what is stored; and what is active counts as aligned
      with the store only if that holds the current version. */
  predicate VersionsTrue(setup: Setup, plan: Plan, l: Life) {
    && (l.status.hasActiveConfig ==> l.status.activeSchemaVersion == plan.adapter.currentSchemaVersion)
    && (l.status.hasStoredSchema ==>
          Stored(setup, l.blobs).Some? && Stored(setup, l.blobs).value.schema == l.status.storedSchemaVersion)
    && (l.status.desiredActiveAligned ==>
          && l.status.hasActiveConfig && l.status.hasStoredSchema
          && l.status.storedSchemaVersion == plan.adapter.currentSchemaVersion)
  }

  lemma DefaultsVersions(setup: Setup, plan: Plan, l: Life, persist: bool, applies: bool, outcome: WriteOutcome)
    requires setup.keyA != setup.keyB && Invariant(setup, State(l.service, l.blobs))
    requires Based(setup, State(l.service, l.blobs)) && WriteAllowed(setup, l, outcome)
    requires !l.status.hasActiveConfig && !l.status.hasStoredSchema && !l.status.desiredActiveAligned
    ensures VersionsTrue(setup, plan, UseDefaults(setup, plan, l, persist, applies, outcome))
  {
    hide Persist, Invariant, Based, Stored, ValidCandidate, WriteAllowed, SelectRaw;
    var built := plan.adapter.buildDefaults(plan.candidateA.capacity);
    if FitsBuffer(built, plan.candidateA.capacity) && persist {
      var active := Commit(plan, l, built.value, FromDefaults);
      KeepsWriteAllowed(setup, l, active, outcome);
      PersistEffect(setup, plan, active, built.value, outcome);
    }
  }

  lemma StartupFromVersions(setup: Setup, plan: Plan, l: Life, schema: nat, payload: bytes, applies: bool,
                            outcome: WriteOutcome)
    requires setup.keyA != setup.keyB && Invariant(setup, State(l.service, l.blobs))
    requires Based(setup, State(l.service, l.blobs)) && WriteAllowed(setup, l, outcome)
    requires !l.status.hasActiveConfig && !l.status.desiredActiveAligned
    requires Stored(setup, l.blobs) == Some(Content(schema, payload))
    ensures VersionsTrue(setup, plan, StartupFrom(setup, plan, l, schema, payload, applies, outcome))
  {
    hide Persist, Invariant, Based, Stored, ValidCandidate, DecodeToCandidate, WriteAllowed, SelectRaw;
    var candidate := DecodeToCandidate(plan, schema, payload);
    if candidate.Some? {
      var known := l.(status := l.status.(hasStoredSchema := true, storedSchemaVersion := schema));
      var active := Commit(plan, known, candidate.value, FromMigrated);
      KeepsWriteAllowed(setup, l, active, outcome);
      PersistEffect(setup, plan, active, candidate.value, outcome);
      SameNewest(setup, l.blobs, Persist(setup, plan, active, candidate.value, outcome).blobs);
    }
  }

  lemma StartupVersions(setup: Setup, plan: Plan, l: Life, applies: bool, outcome: WriteOutcome)
    requires setup.keyA != setup.keyB && Invariant(setup, State(l.service, l.blobs)) && WriteAllowed(setup, l, outcome)
    ensures VersionsTrue(setup, plan, Startup(setup, plan, l, applies, outcome))
  {
    hide UseDefaults, StartupFrom, LoadLatestRaw, Invariant, Based, Stored, WriteAllowed, ValidPlan;
    LoadBases(setup, l, plan.raw.capacity);
    var (service, loaded) := LoadLatestRaw(setup, l.service, l.blobs, plan.raw.capacity);
    var l1 := l.(status := NO_STATUS).(service := service);
    KeepsWriteAllowed(setup, l, l1, outcome);
    match loaded
    case Empty => DefaultsVersions(setup, plan, l1, true, applies, outcome);
    case NoValidRecord => DefaultsVersions(setup, plan, l1, false, applies, outcome);
    case RawSuccess(r, _) => StartupFromVersions(setup, plan, l1, r.schema, r.payload, applies, outcome);
    case _ =>
  }

  lemma UpdateVersions(setup: Setup, plan: Plan, l: Life, proposal: bytes, applies: bool, outcome: WriteOutcome)
    requires setup.keyA != setup.keyB && LifeInvariant(setup, plan, l) && WriteAllowed(setup, l, outcome)
    requires VersionsTrue(setup, plan, l)
    ensures VersionsTrue(setup, plan, Update(setup, plan, l, proposal, applies, outcome))
  {
    hide Update, ValidPlan, Persist, Acceptable, Invariant, Based, Stored, WriteAllowed, SelectRaw, Proposed, LeadsTo,
         ValidCandidate;
    UpdateShape(setup, plan, l, proposal, applies, outcome);
    if Proposed(plan, l, proposal).Some? {
      var c := Proposed(plan, l, proposal).value;
      AcceptableIsProposed(plan, l, proposal, c);
      ActiveIsBased(setup, plan, l, proposal, c);
      var l1 := l.(status := l.status.(lastPersistenceResult := PrNotAttempted));
      KeepsWriteAllowed(setup, l, l1, outcome);
      PersistEffect(setup, plan, l1, c, outcome);
      SameNewest(setup, l.blobs, Persist(setup, plan, l1, c, outcome).blobs);
    }
  }

  /** Over any sequence of startups, updates, power cuts and restarts the version fields of the status say
      which version is active and which is stored. */
  lemma {:induction false} LifeVersions(setup: Setup, plan: Plan, lives: seq<Life>, events: seq<LifeEvent>)
    requires setup.keyA != setup.keyB && DecodeInvertsEncode(plan)
    requires IsLifeRun(setup, plan, lives, events) && LifeInvariant(setup, plan, lives[0])
    requires VersionsTrue(setup, plan, lives[0])
    ensures VersionsTrue(setup, plan, lives[|events|])
    decreases |events|
  {
    hide Startup, Update, Fresh, LifeInvariant, WriteAllowed, DecodeInvertsEncode, VersionsTrue;
    var n := |events|;
    if n > 0 {
      LifeVersions(setup, plan, lives[..n], events[..n - 1]);
      LifeRunKeeps(setup, plan, lives[..n], events[..n - 1]);
      var l := lives[n - 1];
      LifeIsInvariant(setup, plan, l);
      match events[n - 1]
      case StartupEvent(applies, outcome) => StartupVersions(setup, plan, l, applies, outcome);
      case UpdateEvent(proposal, applies, outcome) => UpdateVersions(setup, plan, l, proposal, applies, outcome);
      case StartupCut(applies, outcome, format) =>
        FreshVersions(setup, plan, format, Startup(setup, plan, l, applies, outcome).blobs);
      case UpdateCut(proposal, applies, outcome, format) =>
        FreshVersions(setup, plan, format, Update(setup, plan, l, proposal, applies, outcome).blobs);
      case RestartEvent(_, format) => FreshVersions(setup, plan, format, l.blobs);
    }
  }

  lemma LifeIsInvariant(setup: Setup, plan: Plan, l: Life)
    requires LifeInvariant(setup, plan, l)
    ensures Invariant(setup, State(l.service, l.blobs))
  {
    hide Invariant, Based, Stored, LeadsTo, ValidCandidate;
  }

  lemma FreshVersions(setup: Setup, plan: Plan, format: Format, blobs: Blobs)
    ensures VersionsTrue(setup, plan, Fresh(setup, format, blobs))
  {
    hide Begin, Stored;
  }
}
