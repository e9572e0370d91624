/** The storage service as functions of its fields and of the stored blobs: two slots, modular
    generations, and a base record that a save must not touch. */
module StorageSlots {
  import opened Octets
  import opened StorageRecord

  datatype Slot = A | B | NoSlot

  /** What the backend holds: a blob per key; a missing key reads as length zero. */
  type Blobs = map<string, seq<octet>>

  /** What the service is constructed with. */
  datatype Setup = Setup(space: string, keyA: string, keyB: string, capacity: u32)

  function BlobAt(blobs: Blobs, key: string): seq<octet> {
    if key in blobs then blobs[key] else []
  }

  function Key(setup: Setup, slot: Slot): string {
    if slot == A then setup.keyA else setup.keyB
  }

  function Blob(setup: Setup, blobs: Blobs, slot: Slot): seq<octet> {
    BlobAt(blobs, Key(setup, slot))
  }

  // ------------------------------------------------------------ generations

  const UINT32_MAX: nat := 0xFFFF_FFFF

  function Next(generation: nat): u32 {
    (generation + 1) % 0x1_0000_0000
  }

  predicate IsGenerationNewer(candidate: nat, reference: nat) {
    var difference := (candidate - reference) % 0x1_0000_0000;
    difference != 0 && difference < 0x8000_0000
  }

  // ------------------------------------------------------------ reading

  function ReadSlot(setup: Setup, format: Format, blobs: Blobs, slot: Slot): Option<Record> {
    if slot == NoSlot then None else DecodeCurrent(Blob(setup, blobs, slot), format)
  }

  function ReadRawSlot(setup: Setup, blobs: Blobs, slot: Slot): Option<Record> {
    if slot == NoSlot then None else DecodeRaw(Blob(setup, blobs, slot), setup.capacity)
  }

  datatype Choice = Choice(slot: Slot, record: Record)

  function Latest(a: Option<Record>, b: Option<Record>): Option<Choice> {
    if a.None? && b.None? then None
    else if b.Some? && (a.None? || IsGenerationNewer(b.value.generation, a.value.generation)) then
      Some(Choice(B, b.value))
    else Some(Choice(A, a.value))
  }

  function SelectLatest(setup: Setup, format: Format, blobs: Blobs): Option<Choice> {
    Latest(ReadSlot(setup, format, blobs, A), ReadSlot(setup, format, blobs, B))
  }

  /** The record that every version of the software agrees is the newest. */
  function SelectRaw(setup: Setup, blobs: Blobs): Option<Choice> {
    Latest(ReadRawSlot(setup, blobs, A), ReadRawSlot(setup, blobs, B))
  }

  // ------------------------------------------------------------ the service's fields

  datatype OperationResult =
    | NotAttempted | Success | Failure | NoChange
    | InvalidArgument | ValidationFailure | BackendFailure | VerifyFailure

  datatype Base = Base(slot: Slot, generation: nat)

  datatype Service = Service(
    isOpen: bool,
    format: Format,
    hasValidPayload: bool,
    activeSlot: Slot,
    activeGeneration: nat,
    lastLoad: OperationResult,
    lastSave: OperationResult,
    rawBase: Option<Base>)

  const FRESH := Service(false, Format(0, 0, _ => false), false, NoSlot, 0, NotAttempted, NotAttempted, None)

  function WithoutPayload(s: Service): Service {
    s.(hasValidPayload := false, activeSlot := NoSlot, activeGeneration := 0)
  }

  function Pointing(s: Service, slot: Slot, generation: nat): Service {
    s.(hasValidPayload := true, activeSlot := slot, activeGeneration := generation)
  }

  function RefreshStatus(setup: Setup, s: Service, blobs: Blobs): Service {
    match SelectLatest(setup, s.format, blobs)
    case None => WithoutPayload(s)
    case Some(c) => Pointing(s, c.slot, c.record.generation)
  }

  /** The sizes and names a service can be opened with (32-bit sizes). */
  predicate Configurable(setup: Setup, format: Format) {
    && 0 < format.payloadSize
    && format.payloadSize <= UINT32_MAX - HEADER_SIZE
    && setup.space != "" && setup.keyA != "" && setup.keyB != ""
    && HEADER_SIZE + format.payloadSize <= setup.capacity
  }

  function Begin(setup: Setup, s: Service, format: Format, blobs: Blobs, backendOpens: bool): (Service, bool) {
    if !Configurable(setup, format) then (WithoutPayload(s), false)
    else if !s.isOpen && !backendOpens then (WithoutPayload(s.(format := format)), false)
    else (RefreshStatus(setup, s.(format := format, isOpen := true), blobs), true)
  }

  function Load(setup: Setup, s: Service, blobs: Blobs): (Service, Option<seq<octet>>) {
    if !s.isOpen then (s.(lastLoad := Failure), None)
    else match SelectLatest(setup, s.format, blobs)
      case None => (WithoutPayload(s).(lastLoad := Failure), None)
      case Some(c) => (Pointing(s, c.slot, c.record.generation).(lastLoad := Success), Some(c.record.payload))
  }

  datatype RawLoad = RawSuccess(record: Record, slot: Slot) | Empty | NoValidRecord | BadArgument | InsufficientCapacity

  function LoadLatestRaw(setup: Setup, s: Service, blobs: Blobs, capacity: nat): (Service, RawLoad) {
    var t := s.(rawBase := None);
    if !s.isOpen then (t, BadArgument)
    else match SelectRaw(setup, blobs)
      case None =>
        (t, if Blob(setup, blobs, A) == [] && Blob(setup, blobs, B) == [] then Empty else NoValidRecord)
      case Some(c) =>
        if capacity < |c.record.payload| then (t, InsufficientCapacity)
        else (t.(rawBase := Some(Base(c.slot, c.record.generation))), RawSuccess(c.record, c.slot))
  }

  // ------------------------------------------------------------ saving

  /** How one write to the backend ends: completely, or leaving something else behind and
      reporting some number of bytes. */
  datatype WriteOutcome = Complete | Torn(left: seq<octet>, written: nat)

  function AfterWrite(blobs: Blobs, key: string, blob: seq<octet>, outcome: WriteOutcome): Blobs {
    blobs[key := if outcome.Complete? then blob else outcome.left]
  }

  function Written(blob: seq<octet>, outcome: WriteOutcome): nat {
    if outcome.Complete? then |blob| else outcome.written
  }

  predicate CoversBase(base: Option<Base>, current: Choice) {
    || base.None?
    || (current.slot == base.value.slot && current.record.generation == base.value.generation)
    || IsGenerationNewer(current.record.generation, base.value.generation)
  }

  /** The record a save builds on: the current one, unless a raw base is newer. */
  function SaveBase(base: Option<Base>, current: Option<Choice>): Option<Base> {
    if current.Some? && CoversBase(base, current.value) then
      Some(Base(current.value.slot, current.value.record.generation))
    else base
  }

  function Target(base: Option<Base>): Slot {
    if base.None? || base.value.slot == B then A else B
  }

  function NextGeneration(base: Option<Base>): u32 {
    if base.None? then 1 else Next(base.value.generation)
  }

  /** The payload is already what the current record holds. */
  predicate Unchanged(base: Option<Base>, current: Option<Choice>, payload: seq<octet>) {
    current.Some? && CoversBase(base, current.value) && current.value.record.payload == payload
  }

  datatype Saved = Saved(service: Service, blobs: Blobs, ok: bool)

  /** Writing a new record and reading it back. */
  function WriteRecord(setup: Setup, s: Service, blobs: Blobs, base: Option<Base>, payload: seq<octet>,
                       outcome: WriteOutcome): Saved
  {
    var target, generation := Target(base), NextGeneration(base);
    var blob := Encode(Record(s.format.schema, generation, payload));
    var after := AfterWrite(blobs, Key(setup, target), blob, outcome);
    if Written(blob, outcome) != |blob| then
      Saved(RefreshStatus(setup, s, after).(lastSave := BackendFailure), after, false)
    else
      var verified := ReadSlot(setup, s.format, after, target);
      if verified.None? || verified.value.generation != generation || verified.value.payload != payload then
        Saved(RefreshStatus(setup, s, after).(lastSave := VerifyFailure), after, false)
      else
        Saved(Pointing(s, target, generation).(rawBase := Some(Base(target, generation)), lastSave := Success),
              after, true)
  }

  function SaveOrKeep(setup: Setup, s: Service, blobs: Blobs, base: Option<Base>, current: Option<Choice>,
                      payload: seq<octet>, outcome: WriteOutcome): Saved
  {
    if Unchanged(base, current, payload) then
      var c := current.value;
      Saved(Pointing(s, c.slot, c.record.generation)
            .(rawBase := Some(Base(c.slot, c.record.generation)), lastSave := NoChange), blobs, true)
    else WriteRecord(setup, s, blobs, SaveBase(base, current), payload, outcome)
  }

  /** A save; `raw` says whether the record last seen by the raw reader counts as its base. */
  function Save(setup: Setup, s: Service, blobs: Blobs, raw: bool, payload: seq<octet>, outcome: WriteOutcome): Saved {
    if !s.isOpen then Saved(s.(lastSave := InvalidArgument), blobs, false)
    else if !s.format.validator(payload) then Saved(s.(lastSave := ValidationFailure), blobs, false)
    else
      var current := SelectLatest(setup, s.format, blobs);
      var base := if raw then s.rawBase else None;
      SaveOrKeep(setup, s, blobs, base, current, payload, outcome)
  }

  function SaveCurrentRaw(setup: Setup, s: Service, blobs: Blobs, schema: u16, payload: seq<octet>,
                          outcome: WriteOutcome): Saved
  {
    if schema != s.format.schema || |payload| != s.format.payloadSize then
      Saved(s.(lastSave := InvalidArgument), blobs, false)
    else Save(setup, s, blobs, true, payload, outcome)
  }
}
