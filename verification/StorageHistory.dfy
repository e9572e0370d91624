/** Runs of saves, failed writes, power cuts and restarts. */
module StorageHistory {
  import opened Octets
  import opened StorageRecord
  import opened StorageRegister
  import opened StorageSlots

  /** What the store is a register of: schema and payload of the newest record. */
  datatype Content = Content(schema: nat, payload: seq<octet>)

  function ContentOf(c: Option<Choice>): Option<Content> {
    if c.None? then None else Some(Content(c.value.record.schema, c.value.record.payload))
  }

  function Stored(setup: Setup, blobs: Blobs): Option<Content> {
    ContentOf(SelectRaw(setup, blobs))
  }

  // ------------------------------------------------------------ one save

  /** The service knows its format, and a base it remembers is the newest record. */
  predicate ServiceFits(setup: Setup, s: Service, blobs: Blobs) {
    && (s.isOpen ==> Configurable(setup, s.format))
    && (s.rawBase.Some? ==> s.isOpen && s.rawBase == BaseOf(SelectRaw(setup, blobs)))
  }

  /** The status fields report the record that a load would return. */
  ghost predicate StatusExact(setup: Setup, s: Service, blobs: Blobs) {
    RefreshStatus(setup, s, blobs) == s
  }

  predicate SaveAllowed(setup: Setup, s: Service, blobs: Blobs, raw: bool, payload: seq<octet>, outcome: WriteOutcome) {
    s.isOpen ==>
      && |payload| == s.format.payloadSize
      && Grounded(setup, s.format, blobs, if raw then s.rawBase else None)
      && TornWrite(setup, s.format, blobs, Target(BaseOf(SelectRaw(setup, blobs))), outcome)
  }

  lemma RereadFails(setup: Setup, s: Service, blobs: Blobs, left: seq<octet>, payload: seq<octet>)
    requires setup.keyA != setup.keyB && Configurable(setup, s.format) && SlotsInOrder(setup, blobs)
    requires var slot := Target(BaseOf(SelectRaw(setup, blobs)));
             left == Blob(setup, blobs, slot) || DecodeCurrent(left, s.format).None?
    ensures var newest := BaseOf(SelectRaw(setup, blobs));
            var left' := DecodeCurrent(left, s.format);
            left'.Some? ==> left'.value.generation != NextGeneration(newest)
  {
    hide DecodeRaw, DecodeCurrent, Encode, Key, IsGenerationNewer, Next, Accepts;
    var a, b := ReadRawSlot(setup, blobs, A), ReadRawSlot(setup, blobs, B);
    SlotIsFiltered(setup, s.format, blobs, A);
    SlotIsFiltered(setup, s.format, blobs, B);
    Bounded(setup, blobs);
    if a.Some? && b.Some? {
      LatestIsSuccessor(a.value, b.value);
      NextIsNewer(a.value.generation);
      NextIsNewer(b.value.generation);
    }
  }

  /** Writing the successor of the newest record: the write either completes, and then the store
      holds the new content, or fails, and then it holds what it held before. */
  lemma WriteEffect(setup: Setup, s: Service, blobs: Blobs, payload: seq<octet>, outcome: WriteOutcome)
    requires setup.keyA != setup.keyB && Configurable(setup, s.format) && SlotsInOrder(setup, blobs)
    requires |payload| == s.format.payloadSize && s.format.validator(payload)
    requires TornWrite(setup, s.format, blobs, Target(BaseOf(SelectRaw(setup, blobs))), outcome)
    ensures var newest := SelectRaw(setup, blobs);
            var out := WriteRecord(setup, s, blobs, BaseOf(newest), payload, outcome);
            && SlotsInOrder(setup, out.blobs)
            && (out.ok <==> outcome.Complete?)
            && (newest.Some? ==> ReadRawSlot(setup, out.blobs, newest.value.slot) == Some(newest.value.record))
            && SelectRaw(setup, out.blobs) ==
               (if out.ok then Some(Choice(Target(BaseOf(newest)), NewRecord(s.format, blobs, setup, payload)))
                else newest)
  {
    hide DecodeRaw, Encode, Key, DecodeCurrent, Next, SlotsInOrder, SelectRaw, SelectLatest, Accepts;
    var newest := SelectRaw(setup, blobs);
    var target := Target(BaseOf(newest));
    var r := NewRecord(s.format, blobs, setup, payload);
    WriteBeside(setup, s.format, blobs, payload, outcome);
    OtherSlotKept(setup, blobs, target, Encode(r), outcome);
    if outcome.Torn? {
      RereadFails(setup, s, blobs, outcome.left, payload);
    }
    NewestRead(setup, blobs);
  }

  lemma NewestRead(setup: Setup, blobs: Blobs)
    ensures var newest := SelectRaw(setup, blobs);
            newest.Some? ==>
              && newest.value.slot != NoSlot
              && ReadRawSlot(setup, blobs, newest.value.slot) == Some(newest.value.record)
              && newest.value.slot == Other(Target(BaseOf(newest)))
  {
    hide DecodeRaw;
  }

  /** The effect of one save, whatever becomes of its write. */
  lemma SaveEffect(setup: Setup, s: Service, blobs: Blobs, raw: bool, payload: seq<octet>, outcome: WriteOutcome)
    requires setup.keyA != setup.keyB && SlotsInOrder(setup, blobs) && ServiceFits(setup, s, blobs)
    requires SaveAllowed(setup, s, blobs, raw, payload, outcome)
    ensures var newest := SelectRaw(setup, blobs);
            var out := Save(setup, s, blobs, raw, payload, outcome);
            && SlotsInOrder(setup, out.blobs)
            && (newest.Some? ==> ReadRawSlot(setup, out.blobs, newest.value.slot) == Some(newest.value.record))
            && (out.ok ==> Stored(setup, out.blobs) == Some(Content(s.format.schema, payload)))
            && (!out.ok ==> SelectRaw(setup, out.blobs) == newest)
            && (out.service.lastSave == NoChange ==>
                out.ok && out.blobs == blobs && Stored(setup, blobs) == Stored(setup, out.blobs))
            && (outcome.Complete? && s.isOpen && s.format.validator(payload) ==> out.ok)
  {
    hide Configurable, TornWrite, DecodeRaw, ReadSlot, ReadRawSlot, WriteRecord, SelectRaw, SelectLatest, SlotsInOrder;
    NewestRead(setup, blobs);
    if s.isOpen && s.format.validator(payload) {
      var base := if raw then s.rawBase else None;
      FormatFits(setup, s.format);
      BaseIsNewest(setup, s.format, blobs, base);
      var current := SelectLatest(setup, s.format, blobs);
      if Unchanged(base, current, payload) {
        SelectedAccepted(setup, s.format, blobs);
      } else {
        WriteEffect(setup, s, blobs, payload, outcome);
        WriteStatus(setup, s, blobs, BaseOf(SelectRaw(setup, blobs)), payload, outcome);
      }
    }
  }

  lemma FormatFits(setup: Setup, format: Format)
    requires Configurable(setup, format)
    ensures HEADER_SIZE + format.payloadSize <= setup.capacity
  {
  }

  lemma SelectedAccepted(setup: Setup, format: Format, blobs: Blobs)
    requires HEADER_SIZE + format.payloadSize <= setup.capacity
    ensures var c := SelectLatest(setup, format, blobs);
            c.Some? ==> Accepts(format, c.value.record) && c.value.slot != NoSlot
  {
    hide DecodeRaw, DecodeCurrent, ReadSlot, ReadRawSlot;
    SlotIsFiltered(setup, format, blobs, A);
    SlotIsFiltered(setup, format, blobs, B);
  }

  lemma WriteStatus(setup: Setup, s: Service, blobs: Blobs, base: Option<Base>, payload: seq<octet>,
                    outcome: WriteOutcome)
    ensures var out := WriteRecord(setup, s, blobs, base, payload, outcome);
            && out.service.lastSave != NoChange
            && out.service.format == s.format && out.service.isOpen == s.isOpen
            && out.service.rawBase == (if out.ok then Some(Base(Target(base), NextGeneration(base))) else s.rawBase)
            && (!out.ok ==> StatusExact(setup, out.service, out.blobs))
  {
    hide ReadSlot, Encode, SelectLatest, Next;
  }

  /** A save leaves the service knowing what the store holds. */
  lemma SaveService(setup: Setup, s: Service, blobs: Blobs, raw: bool, payload: seq<octet>, outcome: WriteOutcome)
    requires setup.keyA != setup.keyB && SlotsInOrder(setup, blobs) && ServiceFits(setup, s, blobs)
    requires SaveAllowed(setup, s, blobs, raw, payload, outcome)
    ensures var out := Save(setup, s, blobs, raw, payload, outcome);
            && ServiceFits(setup, out.service, out.blobs)
            && out.service.format == s.format && out.service.isOpen == s.isOpen
            && (StatusExact(setup, s, blobs) ==> StatusExact(setup, out.service, out.blobs))
            && (out.ok ==> out.service.rawBase == BaseOf(SelectRaw(setup, out.blobs)))
            && (!out.ok ==> out.service.rawBase == s.rawBase)
  {
    hide Configurable, TornWrite, DecodeRaw, ReadSlot, ReadRawSlot, WriteRecord, SelectRaw, SelectLatest,
         SlotsInOrder, Accepts;
    if s.isOpen && s.format.validator(payload) {
      var base := if raw then s.rawBase else None;
      FormatFits(setup, s.format);
      BaseIsNewest(setup, s.format, blobs, base);
      var current := SelectLatest(setup, s.format, blobs);
      var newest := BaseOf(SelectRaw(setup, blobs));
      if !Unchanged(base, current, payload) {
        WriteEffect(setup, s, blobs, payload, outcome);
        WriteStatus(setup, s, blobs, newest, payload, outcome);
        WriteSuccessStatus(setup, s, blobs, payload, outcome);
      }
    }
  }

  lemma WriteSuccessStatus(setup: Setup, s: Service, blobs: Blobs, payload: seq<octet>, outcome: WriteOutcome)
    requires setup.keyA != setup.keyB && Configurable(setup, s.format) && SlotsInOrder(setup, blobs)
    requires |payload| == s.format.payloadSize && s.format.validator(payload)
    requires TornWrite(setup, s.format, blobs, Target(BaseOf(SelectRaw(setup, blobs))), outcome)
    ensures var out := WriteRecord(setup, s, blobs, BaseOf(SelectRaw(setup, blobs)), payload, outcome);
            out.ok ==> StatusExact(setup, out.service, out.blobs)
  {
    hide DecodeRaw, ReadSlot, ReadRawSlot, Encode, SelectRaw, SelectLatest, SlotsInOrder, TornWrite, Next, Key,
         AfterWrite;
    var out := WriteRecord(setup, s, blobs, BaseOf(SelectRaw(setup, blobs)), payload, outcome);
    WriteEffect(setup, s, blobs, payload, outcome);
    if out.ok {
      TypedSelection(setup, s.format, out.blobs);
      assert Accepts(s.format, NewRecord(s.format, blobs, setup, payload));
    }
  }

  // ------------------------------------------------------------ what a save answers

  /** Nothing is written exactly when the store already holds this content. */
  lemma NoChangeExact(setup: Setup, s: Service, blobs: Blobs, raw: bool, payload: seq<octet>, outcome: WriteOutcome)
    requires setup.keyA != setup.keyB && SlotsInOrder(setup, blobs) && ServiceFits(setup, s, blobs)
    requires SaveAllowed(setup, s, blobs, raw, payload, outcome)
    ensures Save(setup, s, blobs, raw, payload, outcome).service.lastSave == NoChange <==>
              && s.isOpen && s.format.validator(payload)
              && Stored(setup, blobs) == Some(Content(s.format.schema, payload))
  {
    hide Configurable, TornWrite, DecodeRaw, ReadSlot, ReadRawSlot, WriteRecord, SelectRaw, SelectLatest, SlotsInOrder;
    if s.isOpen && s.format.validator(payload) {
      var base := if raw then s.rawBase else None;
      FormatFits(setup, s.format);
      BaseIsNewest(setup, s.format, blobs, base);
      SelectedAccepted(setup, s.format, blobs);
      if Stored(setup, blobs) == Some(Content(s.format.schema, payload)) {
        NewestIsCurrent(setup, s.format, blobs, base, payload);
      }
      WriteStatus(setup, s, blobs, SaveBase(base, SelectLatest(setup, s.format, blobs)), payload, outcome);
    }
  }

  /** A newest record of the running format with a payload that passes is what the typed reader sees. */
  lemma NewestIsCurrent(setup: Setup, format: Format, blobs: Blobs, base: Option<Base>, payload: seq<octet>)
    requires HEADER_SIZE + format.payloadSize <= setup.capacity && SlotsInOrder(setup, blobs)
    requires Grounded(setup, format, blobs, base) && |payload| == format.payloadSize && format.validator(payload)
    requires Stored(setup, blobs) == Some(Content(format.schema, payload))
    ensures var current := SelectLatest(setup, format, blobs);
            current.Some? && CoversBase(base, current.value) && current.value.record.payload == payload
  {
    hide DecodeRaw, DecodeCurrent, ReadSlot, ReadRawSlot, SelectRaw, SelectLatest, SlotsInOrder, IsGenerationNewer;
    TypedSelection(setup, format, blobs);
  }

  /** How a save ends: refused by the arguments it changes nothing; written, it succeeds with the next
      generation exactly when the write completes; and a failed write is told apart by its length. */
  lemma SaveExact(setup: Setup, s: Service, blobs: Blobs, raw: bool, payload: seq<octet>, outcome: WriteOutcome)
    requires setup.keyA != setup.keyB && SlotsInOrder(setup, blobs) && ServiceFits(setup, s, blobs)
    requires SaveAllowed(setup, s, blobs, raw, payload, outcome)
    ensures var out := Save(setup, s, blobs, raw, payload, outcome);
            var valid := s.isOpen && s.format.validator(payload);
            var same := Stored(setup, blobs) == Some(Content(s.format.schema, payload));
            var newest := SelectRaw(setup, blobs);
            && (out.service.lastSave == InvalidArgument <==> !s.isOpen)
            && (out.service.lastSave == ValidationFailure <==> s.isOpen && !valid)
            && (out.service.lastSave == NoChange <==> valid && same)
            && (out.service.lastSave == Success <==> valid && !same && outcome.Complete?)
            && (out.service.lastSave == BackendFailure <==>
                  valid && !same && outcome.Torn? && outcome.written != HEADER_SIZE + |payload|)
            && (out.service.lastSave == VerifyFailure <==>
                  valid && !same && outcome.Torn? && outcome.written == HEADER_SIZE + |payload|)
            && (out.ok <==> out.service.lastSave in {Success, NoChange})
            && (out.service.lastSave in {InvalidArgument, ValidationFailure, NoChange} ==> out.blobs == blobs)
            && (out.service.lastSave == Success ==>
                  && SelectRaw(setup, out.blobs).Some?
                  && SelectRaw(setup, out.blobs).value.record.generation ==
                     if newest.None? then 1 else (newest.value.record.generation + 1) % 0x1_0000_0000)
  {
    hide Configurable, TornWrite, DecodeRaw, ReadSlot, ReadRawSlot, WriteRecord, SelectRaw, SelectLatest, SlotsInOrder,
         Stored;
    NoChangeExact(setup, s, blobs, raw, payload, outcome);
    if s.isOpen && s.format.validator(payload) {
      var base := if raw then s.rawBase else None;
      FormatFits(setup, s.format);
      BaseIsNewest(setup, s.format, blobs, base);
      var newest := BaseOf(SelectRaw(setup, blobs));
      WriteStatus(setup, s, blobs, newest, payload, outcome);
      WriteEffect(setup, s, blobs, payload, outcome);
      WriteAnswer(setup, s, blobs, newest, payload, outcome);
    }
  }

  lemma WriteAnswer(setup: Setup, s: Service, blobs: Blobs, base: Option<Base>, payload: seq<octet>,
                    outcome: WriteOutcome)
    ensures var out := WriteRecord(setup, s, blobs, base, payload, outcome);
            && (out.ok <==> out.service.lastSave == Success)
            && out.service.lastSave in {Success, BackendFailure, VerifyFailure}
            && (outcome.Torn? ==>
                  (out.service.lastSave == BackendFailure <==> outcome.written != HEADER_SIZE + |payload|))
            && (outcome.Complete? ==> out.service.lastSave != BackendFailure)
  {
    hide ReadSlot, SelectLatest, Next, Encode;
    EncodedLength(Record(s.format.schema, NextGeneration(base), payload));
  }

  lemma EncodedLength(r: Record)
    ensures |Encode(r)| == HEADER_SIZE + |r.payload|
  {
  }

  /** A save reports success only when the record it wrote reads back, whatever became of the write. */
  lemma SuccessReadsBack(
    setup: Setup, s: Service, blobs: Blobs, base: Option<Base>, payload: seq<octet>, outcome: WriteOutcome)
    ensures var out := WriteRecord(setup, s, blobs, base, payload, outcome);
            var record := Record(s.format.schema, NextGeneration(base), payload);
            var back := ReadSlot(setup, s.format, out.blobs, Target(base));
            && (out.ok <==>
                  && Written(Encode(record), outcome) == HEADER_SIZE + |payload|
                  && back.Some? && back.value.generation == NextGeneration(base) && back.value.payload == payload)
  {
    hide ReadSlot, SelectLatest, Next, Encode;
    EncodedLength(Record(s.format.schema, NextGeneration(base), payload));
  }

  /** A load returns something exactly when the service is open and sees a record; it reports which, and
      leaves the raw base alone. */
  lemma LoadExact(setup: Setup, s: Service, blobs: Blobs)
    ensures var (t, out) := Load(setup, s, blobs);
            var current := SelectLatest(setup, s.format, blobs);
            && (out.Some? <==> s.isOpen && current.Some?) && (out.Some? ==> out.value == current.value.record.payload)
            && t.lastLoad == (if out.Some? then Success else Failure)
            && (if s.isOpen then StatusExact(setup, t, blobs) else t == s.(lastLoad := Failure))
            && t.rawBase == s.rawBase && t.lastSave == s.lastSave && t.isOpen == s.isOpen && t.format == s.format
  {
    hide SelectLatest;
  }

  /** What the status fields say: which record a load would return, or that there is none. */
  lemma StatusMeans(setup: Setup, s: Service, blobs: Blobs)
    ensures StatusExact(setup, s, blobs) <==>
              match SelectLatest(setup, s.format, blobs)
              case None => !s.hasValidPayload && s.activeSlot == NoSlot && s.activeGeneration == 0
              case Some(c) => s.hasValidPayload && s.activeSlot == c.slot && s.activeGeneration == c.record.generation
  {
    hide SelectLatest;
  }

  /** A begin succeeds exactly with proper sizes and names over a backend that is or can be opened. */
  lemma BeginExact(setup: Setup, s: Service, format: Format, blobs: Blobs, opens: bool)
    ensures var (t, ok) := Begin(setup, s, format, blobs, opens);
            var proper := && 0 < format.payloadSize && HEADER_SIZE + format.payloadSize <= setup.capacity
                          && setup.space != "" && setup.keyA != "" && setup.keyB != "";
            && (ok <==> proper && (s.isOpen || opens))
            && t.isOpen == (s.isOpen || ok) && (ok ==> t.format == format && StatusExact(setup, t, blobs))
            && (!ok ==> !t.hasValidPayload)
            && t.rawBase == s.rawBase && t.lastLoad == s.lastLoad && t.lastSave == s.lastSave
  {
    hide SelectLatest;
  }

  // ------------------------------------------------------------ runs

  datatype Event =
    | EvBegin(format: Format, backendOpens: bool)
    | EvLoad
    | EvLoadRaw(capacity: nat)
    | EvSave(raw: bool, payload: seq<octet>, outcome: WriteOutcome)
    // The supply fails somewhere inside a save; the next thing to happen is a fresh start.
    | EvCut(raw: bool, payload: seq<octet>, outcome: WriteOutcome)
    // A restart or a power cut at any other moment.
    | EvRestart

  datatype State = State(service: Service, blobs: Blobs)

  function Step(setup: Setup, st: State, e: Event): State {
    match e
    case EvBegin(format, opens) => State(Begin(setup, st.service, format, st.blobs, opens).0, st.blobs)
    case EvLoad => State(Load(setup, st.service, st.blobs).0, st.blobs)
    case EvLoadRaw(capacity) => State(LoadLatestRaw(setup, st.service, st.blobs, capacity).0, st.blobs)
    case EvSave(raw, payload, outcome) =>
      var out := Save(setup, st.service, st.blobs, raw, payload, outcome);
      State(out.service, out.blobs)
    case EvCut(raw, payload, outcome) =>
      State(FRESH, Save(setup, st.service, st.blobs, raw, payload, outcome).blobs)
    case EvRestart => State(FRESH, st.blobs)
  }

  predicate Allowed(setup: Setup, st: State, e: Event) {
    match e
    case EvSave(raw, payload, outcome) => SaveAllowed(setup, st.service, st.blobs, raw, payload, outcome)
    case EvCut(raw, payload, outcome) => SaveAllowed(setup, st.service, st.blobs, raw, payload, outcome)
    case _ => true
  }

  predicate Invariant(setup: Setup, st: State) {
    && SlotsInOrder(setup, st.blobs)
    && ServiceFits(setup, st.service, st.blobs)
  }

  /** What an event does to the register, as its caller sees it. */
  datatype Happening = Nothing | Completed(content: Content) | CutDuring(content: Content)

  function Seen(setup: Setup, st: State, e: Event): Happening {
    match e
    case EvSave(raw, payload, outcome) =>
      if Save(setup, st.service, st.blobs, raw, payload, outcome).ok
      then Completed(Content(st.service.format.schema, payload)) else Nothing
    case EvCut(raw, payload, outcome) =>
      if st.service.isOpen then CutDuring(Content(st.service.format.schema, payload)) else Nothing
    case _ => Nothing
  }

  /** The reference register: a completed save fixes the content, a cut leaves it open whether
      the interrupted content or the previous one is there. */
  predicate Permitted(start: Option<Content>, seen: seq<Happening>, content: Option<Content>)
    decreases |seen|
  {
    if seen == [] then content == start
    else
      var before := seen[..|seen| - 1];
      match seen[|seen| - 1]
      case Nothing => Permitted(start, before, content)
      case Completed(c) => content == Some(c)
      case CutDuring(c) => content == Some(c) || Permitted(start, before, content)
  }

  /** A run: the states before each event and after the last. */
  ghost predicate IsRun(setup: Setup, states: seq<State>, events: seq<Event>) {
    && |states| == |events| + 1
    && (forall i :: 0 <= i < |events| ==>
          Allowed(setup, states[i], events[i]) && states[i + 1] == Step(setup, states[i], events[i]))
  }

  function SeenIn(setup: Setup, states: seq<State>, events: seq<Event>): (seen: seq<Happening>)
    requires |states| == |events| + 1
    ensures |seen| == |events|
  {
    seq(|events|, i requires 0 <= i < |events| => Seen(setup, states[i], events[i]))
  }

  lemma BeginFits(setup: Setup, s: Service, format: Format, blobs: Blobs, opens: bool)
    requires ServiceFits(setup, s, blobs)
    ensures var t := Begin(setup, s, format, blobs, opens).0;
            ServiceFits(setup, t, blobs) && t.rawBase == s.rawBase
  {
    hide SelectRaw, SelectLatest, Configurable;
  }

  lemma LoadFits(setup: Setup, s: Service, blobs: Blobs, capacity: nat)
    requires ServiceFits(setup, s, blobs)
    ensures ServiceFits(setup, Load(setup, s, blobs).0, blobs)
    ensures ServiceFits(setup, LoadLatestRaw(setup, s, blobs, capacity).0, blobs)
  {
    hide SelectRaw, SelectLatest, Configurable;
  }

  /** One step: order and knowledge are kept, and the register moves as its caller may expect. */
  lemma StepKeeps(setup: Setup, st: State, e: Event)
    requires setup.keyA != setup.keyB && Invariant(setup, st) && Allowed(setup, st, e)
    ensures var next := Step(setup, st, e);
            && Invariant(setup, next)
            && (match Seen(setup, st, e)
                case Nothing => Stored(setup, next.blobs) == Stored(setup, st.blobs)
                case Completed(c) => Stored(setup, next.blobs) == Some(c)
                case CutDuring(c) => Stored(setup, next.blobs) in {Some(c), Stored(setup, st.blobs)})
  {
    hide Save, SaveAllowed, Begin, Load, LoadLatestRaw, SlotsInOrder, SelectRaw, Configurable;
    match e
    case EvBegin(format, opens) => BeginFits(setup, st.service, format, st.blobs, opens);
    case EvLoad => LoadFits(setup, st.service, st.blobs, 0);
    case EvLoadRaw(capacity) => LoadFits(setup, st.service, st.blobs, capacity);
    case EvSave(raw, payload, outcome) =>
      SaveEffect(setup, st.service, st.blobs, raw, payload, outcome);
      SaveService(setup, st.service, st.blobs, raw, payload, outcome);
    case EvCut(raw, payload, outcome) =>
      SaveEffect(setup, st.service, st.blobs, raw, payload, outcome);
      ClosedSave(setup, st.service, st.blobs, raw, payload, outcome);
    case EvRestart =>
  }

  lemma ClosedSave(setup: Setup, s: Service, blobs: Blobs, raw: bool, payload: seq<octet>, outcome: WriteOutcome)
    ensures !s.isOpen ==> Save(setup, s, blobs, raw, payload, outcome).blobs == blobs
  {
  }

  /** For every run of starts, loads, saves, failed writes, and power cuts and restarts at any
      moment, the store holds the last
      completed content or, where a cut hit a save, the interrupted or the previous one; and any
      two readable slots are neighbours modulo 2^32. */
  lemma {:induction false} CrashAtomicRegister(setup: Setup, states: seq<State>, events: seq<Event>)
    requires setup.keyA != setup.keyB && IsRun(setup, states, events) && Invariant(setup, states[0])
    ensures Invariant(setup, states[|events|])
    ensures Permitted(Stored(setup, states[0].blobs), SeenIn(setup, states, events),
                      Stored(setup, states[|events|].blobs))
    decreases |events|
  {
    hide Step, Allowed, Invariant, Stored, Seen;
    var n := |events|;
    if n > 0 {
      CrashAtomicRegister(setup, states[..n], events[..n - 1]);
      StepKeeps(setup, states[n - 1], events[n - 1]);
      var seen := SeenIn(setup, states, events);
      assert seen[..n - 1] == SeenIn(setup, states[..n], events[..n - 1]);
    }
  }

  // ------------------------------------------------------------ what the readers return

  /** The raw reader returns the stored content, and from then on a raw save builds on it. */
  lemma RawLoadReturns(setup: Setup, s: Service, blobs: Blobs, capacity: nat)
    requires s.isOpen && setup.capacity <= capacity + HEADER_SIZE
    ensures var (t, out) := LoadLatestRaw(setup, s, blobs, capacity);
            && (match out
                case RawSuccess(r, _) => Stored(setup, blobs) == Some(Content(r.schema, r.payload))
                case Empty => Stored(setup, blobs) == None
                case NoValidRecord => Stored(setup, blobs) == None
                case _ => false)
            && t.rawBase == BaseOf(SelectRaw(setup, blobs))
            && Grounded(setup, t.format, blobs, t.rawBase)
  {
    hide Accepts, Encode;
    var newest := SelectRaw(setup, blobs);
    if newest.Some? {
      NewestRead(setup, blobs);
      RawIsEncoded(Blob(setup, blobs, newest.value.slot), setup.capacity, newest.value.record);
    }
  }

  /** Which answer the raw reader gives: an untouched store is not a damaged one. */
  lemma RawLoadExact(setup: Setup, s: Service, blobs: Blobs, capacity: nat)
    ensures var (t, out) := LoadLatestRaw(setup, s, blobs, capacity);
            var a, b := BlobAt(blobs, setup.keyA), BlobAt(blobs, setup.keyB);
            var unreadable := DecodeRaw(a, setup.capacity).None? && DecodeRaw(b, setup.capacity).None?;
            && t == s.(rawBase := t.rawBase) && (t.rawBase.Some? <==> out.RawSuccess?)
            && (out == BadArgument <==> !s.isOpen)
            && (out == Empty <==> s.isOpen && a == [] && b == [])
            && (out == NoValidRecord <==> s.isOpen && (a != [] || b != []) && unreadable)
            && (out.RawSuccess? || out == InsufficientCapacity <==> s.isOpen && !unreadable)
            && (out == InsufficientCapacity <==>
                  s.isOpen && Stored(setup, blobs).Some? && capacity < |Stored(setup, blobs).value.payload|)
  {
    hide DecodeRaw, IsGenerationNewer;
    NothingInNothing(setup.capacity);
  }

  lemma NothingInNothing(capacity: nat)
    ensures DecodeRaw([], capacity).None?
  {
  }

  /** The service remembers exactly the newest record, or that there is none. */
  predicate Based(setup: Setup, st: State) {
    st.service.isOpen && st.service.rawBase == BaseOf(SelectRaw(setup, st.blobs))
  }

  /** Once the raw reader has been used, every later raw save builds on the newest record,
      whatever formats are stored and however many writes fail. */
  lemma BasedKeeps(setup: Setup, st: State, e: Event)
    requires setup.keyA != setup.keyB && Invariant(setup, st) && Based(setup, st)
    requires e.EvSave? && SaveAllowed(setup, st.service, st.blobs, e.raw, e.payload, e.outcome)
    ensures Based(setup, Step(setup, st, e))
    ensures Grounded(setup, st.service.format, st.blobs, st.service.rawBase)
  {
    hide Save, SaveAllowed, SlotsInOrder, SelectRaw, Configurable, Accepts;
    SaveEffect(setup, st.service, st.blobs, e.raw, e.payload, e.outcome);
    SaveService(setup, st.service, st.blobs, e.raw, e.payload, e.outcome);
  }

  /** The typed reader returns the stored payload when the newest record is of its format. */
  lemma LoadReturns(setup: Setup, s: Service, blobs: Blobs)
    requires s.isOpen && Configurable(setup, s.format) && SlotsInOrder(setup, blobs)
    requires var newest := SelectRaw(setup, blobs); newest.Some? ==> Accepts(s.format, newest.value.record)
    ensures var (t, out) := Load(setup, s, blobs);
            && out == (if Stored(setup, blobs).None? then None else Some(Stored(setup, blobs).value.payload))
            && StatusExact(setup, t, blobs)
            && Grounded(setup, s.format, blobs, None)
  {
    hide SelectRaw, SelectLatest, Accepts, SlotsInOrder;
    TypedSelection(setup, s.format, blobs);
  }

  // ------------------------------------------------------------ a single format

  /** Every start uses `format`. */
  ghost predicate OneFormat(events: seq<Event>, format: Format) {
    forall i :: 0 <= i < |events| && events[i].EvBegin? ==> events[i].format == format
  }

  /** Everything readable is of `format`, and so is the service. */
  ghost predicate Homogeneous(setup: Setup, st: State, format: Format) {
    && (st.service.isOpen ==> st.service.format == format)
    && (SelectRaw(setup, st.blobs).Some? ==> Accepts(format, SelectRaw(setup, st.blobs).value.record))
  }

  lemma HomogeneousStep(setup: Setup, st: State, e: Event, format: Format)
    requires setup.keyA != setup.keyB && Invariant(setup, st) && Allowed(setup, st, e)
    requires Homogeneous(setup, st, format) && (e.EvBegin? ==> e.format == format)
    ensures Homogeneous(setup, Step(setup, st, e), format)
  {
    hide Save, SaveAllowed, SlotsInOrder, SelectRaw, SelectLatest, Configurable, ReadRawSlot;
    if e.EvSave? || e.EvCut? {
      SaveEffect(setup, st.service, st.blobs, e.raw, e.payload, e.outcome);
      SaveService(setup, st.service, st.blobs, e.raw, e.payload, e.outcome);
      SavedIsValid(setup, st.service, st.blobs, e.raw, e.payload, e.outcome);
      OnlyPayloadMatters(setup, st, e, format);
    }
  }

  lemma SavedIsValid(setup: Setup, s: Service, blobs: Blobs, raw: bool, payload: seq<octet>, outcome: WriteOutcome)
    ensures Save(setup, s, blobs, raw, payload, outcome).ok ==> s.isOpen && s.format.validator(payload)
  {
    hide SelectLatest, WriteRecord;
  }

  lemma OnlyPayloadMatters(setup: Setup, st: State, e: Event, format: Format)
    requires e.EvSave? || e.EvCut?
    requires SaveAllowed(setup, st.service, st.blobs, e.raw, e.payload, e.outcome)
    requires Homogeneous(setup, st, format)
    requires var out := Save(setup, st.service, st.blobs, e.raw, e.payload, e.outcome);
             && (out.ok ==> Stored(setup, out.blobs) == Some(Content(st.service.format.schema, e.payload)))
             && (out.ok ==> st.service.isOpen && st.service.format.validator(e.payload))
             && (!out.ok ==> SelectRaw(setup, out.blobs) == SelectRaw(setup, st.blobs))
    ensures var out := Save(setup, st.service, st.blobs, e.raw, e.payload, e.outcome);
            SelectRaw(setup, out.blobs).Some? ==> Accepts(format, SelectRaw(setup, out.blobs).value.record)
  {
    hide Save, SelectRaw, SelectLatest, Grounded, TornWrite;
  }

  /** Software that keeps one format, starting from an empty store, may always save: after any
      run, a load returns what the reference register permits. */
  lemma {:induction false} SingleFormatRun(setup: Setup, states: seq<State>, events: seq<Event>, format: Format)
    requires setup.keyA != setup.keyB && IsRun(setup, states, events) && OneFormat(events, format)
    requires states[0] == State(FRESH, map[])
    ensures var last := states[|events|];
            && Invariant(setup, last) && Homogeneous(setup, last, format)
            && (last.service.isOpen ==>
                  var out := Load(setup, last.service, last.blobs).1;
                  && Grounded(setup, format, last.blobs, None)
                  && Permitted(None, SeenIn(setup, states, events),
                               if out.None? then None else Some(Content(format.schema, out.value))))
  {
    hide Step, Allowed, Configurable, Load, SelectLatest, Permitted, Encode, SlotsInOrder;
    EmptyStore(setup);
    SingleFormatStates(setup, states, events, format);
    CrashAtomicRegister(setup, states, events);
    var last := states[|events|];
    if last.service.isOpen {
      LoadReturns(setup, last.service, last.blobs);
    }
  }

  lemma EmptyStore(setup: Setup)
    ensures Invariant(setup, State(FRESH, map[])) && SelectRaw(setup, map[]) == None
  {
  }

  lemma {:induction false} SingleFormatStates(setup: Setup, states: seq<State>, events: seq<Event>, format: Format)
    requires setup.keyA != setup.keyB && IsRun(setup, states, events) && OneFormat(events, format)
    requires states[0] == State(FRESH, map[])
    ensures Invariant(setup, states[|events|]) && Homogeneous(setup, states[|events|], format)
    decreases |events|
  {
    hide Step, Allowed, Invariant, SelectRaw;
    var n := |events|;
    EmptyStore(setup);
    if n > 0 {
      SingleFormatStates(setup, states[..n], events[..n - 1], format);
      StepKeeps(setup, states[n - 1], events[n - 1]);
      HomogeneousStep(setup, states[n - 1], events[n - 1], format);
    }
  }
}
