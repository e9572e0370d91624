/** The storage service over its record buffer, proved against the functions of StorageSlots. */
module StorageService {
  import opened Crc32
  import opened LittleEndian
  import opened Octets
  import opened StorageRecord
  import opened StorageSlots

  /** A key-value store whose reads are faithful; each write is told how it ends. */
  class StorageBackend {
    var blobs: Blobs

    constructor (initial: Blobs)
      ensures blobs == initial
    {
      blobs := initial;
    }

    method ReadBlob(key: string, buffer: array<octet>, size: nat) returns (read: nat)
      requires size <= buffer.Length
      modifies buffer
      ensures read == if |BlobAt(blobs, key)| < size then |BlobAt(blobs, key)| else size
      ensures buffer[..read] == BlobAt(blobs, key)[..read]
    {
      var blob := BlobAt(blobs, key);
      read := if |blob| < size then |blob| else size;
      for i := 0 to read
        invariant buffer[..i] == blob[..i]
      {
        buffer[i] := blob[i];
      }
    }

    method WriteBlob(key: string, buffer: array<octet>, size: nat, outcome: WriteOutcome) returns (written: nat)
      requires size <= buffer.Length
      modifies this
      ensures blobs == AfterWrite(old(blobs), key, old(buffer[..size]), outcome)
      ensures written == Written(old(buffer[..size]), outcome)
    {
      blobs := blobs[key := if outcome.Complete? then buffer[..size] else outcome.left];
      written := if outcome.Complete? then size else outcome.written;
    }
  }

  /** A buffer whose fields and payload are those of a record holds its encoding. */
  lemma AssembledRecord(b: seq<octet>, r: Record)
    requires |b| == HEADER_SIZE + |r.payload|
    requires b[0..4] == Digits(MAGIC, 4) && b[4..6] == Digits(FORMAT_VERSION, 2)
    requires b[6..8] == Digits(r.schema, 2) && b[8..12] == Digits(|r.payload|, 4)
    requires b[12..16] == Digits(r.generation, 4) && b[16..20] == Digits(Checksum(r.payload), 4)
    requires b[20..24] == Digits(Checksum(b[..HEADER_CRC_INPUT_SIZE]), 4)
    requires b[HEADER_SIZE..] == r.payload
    ensures b == Encode(r)
  {
    hide Digits, Checksum;
    SplitHeader(b);
  }

  class StorageService {
    const backend: StorageBackend
    const setup: Setup
    const recordBuffer: array<octet>
    var payloadSize: nat
    var recordSize: nat
    var schemaVersion: u16
    var validator: seq<octet> -> bool
    var isOpen: bool
    var hasValidPayload: bool
    var activeSlot: Slot
    var activeGeneration: nat
    var lastLoadResult: OperationResult
    var lastSaveResult: OperationResult
    var rawBaseValid: bool
    var rawBaseSlot: Slot
    var rawBaseGeneration: nat
    var rawBaseForSave: bool

    function Format(): StorageRecord.Format
      reads `payloadSize, `schemaVersion, `validator
    {
      StorageRecord.Format(payloadSize, schemaVersion, validator)
    }

    /** The fields as one value. */
    function State(): Service
      reads this
    {
      Service(isOpen, Format(), hasValidPayload, activeSlot, activeGeneration, lastLoadResult, lastSaveResult,
              if rawBaseValid then Some(Base(rawBaseSlot, rawBaseGeneration)) else None)
    }

    predicate Valid()
      reads this
    {
      && recordBuffer.Length == setup.capacity
      && (isOpen ==> Configurable(setup, Format()) && recordSize == HEADER_SIZE + payloadSize)
    }

    constructor (backend: StorageBackend, setup: Setup)
      ensures Valid() && State() == FRESH && !rawBaseForSave
      ensures this.backend == backend && this.setup == setup && fresh(recordBuffer)
    {
      this.backend := backend;
      this.setup := setup;
      recordBuffer := new octet[setup.capacity];
      payloadSize, recordSize, schemaVersion, validator := 0, 0, 0, FRESH.format.validator;
      isOpen, hasValidPayload, activeSlot, activeGeneration := false, false, NoSlot, 0;
      lastLoadResult, lastSaveResult := NotAttempted, NotAttempted;
      rawBaseValid, rawBaseSlot, rawBaseGeneration, rawBaseForSave := false, NoSlot, 0, false;
    }

    // ---------------------------------------------------------- numbers in the buffer

    method ReadUint16(offset: nat) returns (value: nat)
      requires offset + 2 <= recordBuffer.Length
      ensures value == Number(recordBuffer[offset..offset + 2])
    {
      ghost var b := recordBuffer[offset..offset + 2];
      var low: int, high: int := recordBuffer[offset], recordBuffer[offset + 1];
      value := low + 256 * high;
      assert Number(b) == b[0] + 256 * Number(b[1..]) && Number(b[1..]) == b[1] + 256 * Number(b[1..][1..]);
    }

    method ReadUint32(offset: nat) returns (value: nat)
      requires offset + 4 <= recordBuffer.Length
      ensures value == Number(recordBuffer[offset..offset + 4])
    {
      ghost var b := recordBuffer[offset..offset + 4];
      var b0: int, b1: int := recordBuffer[offset], recordBuffer[offset + 1];
      var b2: int, b3: int := recordBuffer[offset + 2], recordBuffer[offset + 3];
      value := b0 + 0x100 * b1 + 0x1_0000 * b2 + 0x100_0000 * b3;
      NumberOfFour(b, b0, b1, b2, b3);
    }

    static lemma NumberOfFour(b: seq<octet>, b0: int, b1: int, b2: int, b3: int)
      requires |b| == 4 && b[0] == b0 && b[1] == b1 && b[2] == b2 && b[3] == b3
      ensures Number(b) == b0 + 0x100 * b1 + 0x1_0000 * b2 + 0x100_0000 * b3
    {
      var t1, t2, t3 := b[1..], b[1..][1..], b[1..][1..][1..];
      assert Number(b) == b0 + 256 * Number(t1);
      assert Number(t1) == b1 + 256 * Number(t2);
      assert Number(t2) == b2 + 256 * Number(t3);
      assert Number(t3) == b3 + 256 * Number(t3[1..]);
    }

    /** Everything outside a stretch of the buffer is as before. */
    twostate predicate KeptOutside(offset: nat, width: nat)
      reads recordBuffer
    {
      forall i :: 0 <= i < recordBuffer.Length && !(offset <= i < offset + width) ==>
        recordBuffer[i] == old(recordBuffer[i])
    }

    method WriteUint16(offset: nat, value: nat)
      requires offset + 2 <= recordBuffer.Length
      modifies recordBuffer
      ensures recordBuffer[offset..offset + 2] == Digits(value, 2)
      ensures KeptOutside(offset, 2)
    {
      recordBuffer[offset] := value % 256;
      recordBuffer[offset + 1] := value / 256 % 256;
      assert Digits(value, 2) == [value % 256] + Digits(value / 256, 1);
    }

    method WriteUint32(offset: nat, value: nat)
      requires offset + 4 <= recordBuffer.Length
      modifies recordBuffer
      ensures recordBuffer[offset..offset + 4] == Digits(value, 4)
      ensures KeptOutside(offset, 4)
    {
      recordBuffer[offset] := value % 256;
      recordBuffer[offset + 1] := value / 256 % 256;
      recordBuffer[offset + 2] := value / 256 / 256 % 256;
      recordBuffer[offset + 3] := value / 256 / 256 / 256 % 256;
      assert Digits(value, 4) == [value % 256] + Digits(value / 256, 3);
      assert Digits(value / 256, 3) == [value / 256 % 256] + Digits(value / 256 / 256, 2);
      assert Digits(value / 256 / 256, 2) == [value / 256 / 256 % 256] + Digits(value / 256 / 256 / 256, 1);
    }

    // ---------------------------------------------------------- reading

    /** The checks of the typed reader on what it has put into the buffer. */
    method CheckCurrent() returns (found: Option<Record>)
      requires recordSize == HEADER_SIZE + payloadSize <= recordBuffer.Length
      ensures found == DecodeCurrent(recordBuffer[..recordSize], Format())
    {
      hide Number, Checksum;
      ghost var blob := recordBuffer[..recordSize];
      SameSlices();
      var magic := ReadUint32(0);
      var version := ReadUint16(4);
      var schema := ReadUint16(6);
      var length := ReadUint32(8);
      if magic != MAGIC || version != FORMAT_VERSION || schema != schemaVersion || length != payloadSize {
        return None;
      }
      var storedHeaderCrc := ReadUint32(20);
      var headerCrc := ComputeCrc(recordBuffer, 0, HEADER_CRC_INPUT_SIZE);
      if headerCrc != storedHeaderCrc {
        return None;
      }
      var storedPayloadCrc := ReadUint32(16);
      var payloadCrc := ComputeCrc(recordBuffer, HEADER_SIZE, payloadSize);
      if payloadCrc != storedPayloadCrc {
        return None;
      }
      if !validator(recordBuffer[HEADER_SIZE..recordSize]) {
        return None;
      }
      var generation := ReadUint32(12);
      return Some(Record(schema, generation, recordBuffer[HEADER_SIZE..recordSize]));
    }

    lemma SameSlices()
      requires HEADER_SIZE <= recordSize <= recordBuffer.Length
      ensures var blob := recordBuffer[..recordSize];
              && (forall i, j :: 0 <= i <= j <= recordSize ==> blob[i..j] == recordBuffer[i..j])
              && blob[HEADER_SIZE..] == recordBuffer[HEADER_SIZE..recordSize]
              && blob[..HEADER_CRC_INPUT_SIZE] == recordBuffer[0..HEADER_CRC_INPUT_SIZE]
    {
    }

    /** On success the buffer holds the record; without one the outcome is None. */
    method ReadSlot(slot: Slot) returns (found: Option<Record>)
      requires Valid()
      modifies recordBuffer
      ensures isOpen ==> found == StorageSlots.ReadSlot(setup, Format(), backend.blobs, slot)
      ensures isOpen && found.Some? ==> recordBuffer[HEADER_SIZE..recordSize] == found.value.payload
      ensures !isOpen ==> found == None
    {
      hide DecodeRaw, Configurable, Encode;
      if !isOpen || slot == NoSlot {
        return None;
      }
      ConfiguredSize();
      var key := Key(setup, slot);
      if |BlobAt(backend.blobs, key)| != recordSize {
        return None;
      }
      var read := backend.ReadBlob(key, recordBuffer, recordSize);
      assert recordBuffer[..recordSize] == BlobAt(backend.blobs, key);
      found := CheckCurrent();
      SameSlices();
    }

    lemma ConfiguredSize()
      requires Valid() && isOpen
      ensures recordSize == HEADER_SIZE + payloadSize <= recordBuffer.Length
      ensures 0 < payloadSize < 0x1_0000_0000
    {
    }

    /** The checks of the raw reader on what it has put into the buffer. */
    method CheckRaw(storedSize: nat) returns (found: Option<Record>)
      requires HEADER_SIZE <= storedSize <= recordBuffer.Length <= UINT32_MAX
      ensures found == DecodeRaw(recordBuffer[..storedSize], recordBuffer.Length)
    {
      hide Number, Checksum;
      ghost var blob := recordBuffer[..storedSize];
      assert blob[0..4] == recordBuffer[0..4] && blob[4..6] == recordBuffer[4..6] && blob[6..8] == recordBuffer[6..8];
      assert blob[8..12] == recordBuffer[8..12] && blob[12..16] == recordBuffer[12..16];
      assert blob[16..20] == recordBuffer[16..20] && blob[20..24] == recordBuffer[20..24];
      assert blob[..20] == recordBuffer[0..20] && blob[24..] == recordBuffer[24..storedSize];
      var magic := ReadUint32(0);
      var version := ReadUint16(4);
      if magic != MAGIC || version != FORMAT_VERSION {
        return None;
      }
      var storedHeaderCrc := ReadUint32(20);
      var headerCrc := ComputeCrc(recordBuffer, 0, HEADER_CRC_INPUT_SIZE);
      if headerCrc != storedHeaderCrc {
        return None;
      }
      var encodedPayloadSize := ReadUint32(8);
      if encodedPayloadSize > UINT32_MAX - HEADER_SIZE || HEADER_SIZE + encodedPayloadSize != storedSize {
        return None;
      }
      var storedPayloadCrc := ReadUint32(16);
      var payloadCrc := ComputeCrc(recordBuffer, HEADER_SIZE, encodedPayloadSize);
      if payloadCrc != storedPayloadCrc {
        return None;
      }
      var schema := ReadUint16(6);
      var generation := ReadUint32(12);
      return Some(Record(schema, generation, recordBuffer[HEADER_SIZE..storedSize]));
    }

    method ReadRawSlot(slot: Slot) returns (present: bool, found: Option<Record>)
      requires Valid()
      modifies recordBuffer
      ensures isOpen ==> found == StorageSlots.ReadRawSlot(setup, backend.blobs, slot)
      ensures isOpen && slot != NoSlot ==> present == (Blob(setup, backend.blobs, slot) != [])
      ensures !isOpen ==> found == None && !present
      ensures found.Some? ==>
                && HEADER_SIZE + |found.value.payload| <= recordBuffer.Length
                && recordBuffer[HEADER_SIZE..HEADER_SIZE + |found.value.payload|] == found.value.payload
    {
      hide DecodeCurrent, Configurable, Encode;
      if !isOpen || slot == NoSlot {
        return false, None;
      }
      var key := Key(setup, slot);
      var storedSize := |BlobAt(backend.blobs, key)|;
      if storedSize == 0 {
        return false, None;
      }
      present := true;
      if storedSize < HEADER_SIZE || storedSize > recordBuffer.Length {
        return present, None;
      }
      var read := backend.ReadBlob(key, recordBuffer, storedSize);
      assert recordBuffer[..storedSize] == BlobAt(backend.blobs, key);
      found := CheckRaw(storedSize);
      assert recordBuffer[..storedSize][HEADER_SIZE..] == recordBuffer[HEADER_SIZE..storedSize];
    }

    method SelectLatest() returns (selected: Option<Choice>)
      requires Valid()
      modifies recordBuffer
      ensures isOpen ==> selected == StorageSlots.SelectLatest(setup, Format(), backend.blobs)
      ensures !isOpen ==> selected == None
    {
      hide DecodeCurrent, Configurable;
      var a := ReadSlot(A);
      var b := ReadSlot(B);
      if a.None? && b.None? {
        return None;
      }
      if b.Some? && (a.None? || IsGenerationNewer(b.value.generation, a.value.generation)) {
        return Some(Choice(B, b.value));
      }
      return Some(Choice(A, a.value));
    }

    method RefreshStatus()
      requires Valid() && isOpen
      modifies recordBuffer, `hasValidPayload, `activeSlot, `activeGeneration
      ensures State() == StorageSlots.RefreshStatus(setup, old(State()), backend.blobs)
    {
      hide StorageSlots.SelectLatest, Configurable;
      var selected := SelectLatest();
      if selected.None? {
        hasValidPayload, activeSlot, activeGeneration := false, NoSlot, 0;
        return;
      }
      hasValidPayload, activeSlot := true, selected.value.slot;
      activeGeneration := selected.value.record.generation;
    }

    // ---------------------------------------------------------- operations

    method Begin(newPayloadSize: nat, newSchemaVersion: u16, newValidator: seq<octet> -> bool, backendOpens: bool)
      returns (ok: bool)
      requires Valid()
      modifies this, recordBuffer
      ensures Valid() && rawBaseForSave == old(rawBaseForSave) && backend.blobs == old(backend.blobs)
      ensures var out := StorageSlots.Begin(setup, old(State()),
                           StorageRecord.Format(newPayloadSize, newSchemaVersion, newValidator),
                           backend.blobs, backendOpens);
              State() == out.0 && ok == out.1
    {
      hide StorageSlots.SelectLatest;
      if
        || newPayloadSize == 0
        || newPayloadSize > UINT32_MAX
        || newPayloadSize > UINT32_MAX - HEADER_SIZE
        || setup.space == "" || setup.keyA == "" || setup.keyB == ""
        || setup.capacity < HEADER_SIZE + newPayloadSize
      {
        hasValidPayload, activeSlot, activeGeneration := false, NoSlot, 0;
        return false;
      }
      payloadSize, recordSize := newPayloadSize, HEADER_SIZE + newPayloadSize;
      schemaVersion, validator := newSchemaVersion, newValidator;
      if !isOpen {
        if !backendOpens {
          hasValidPayload, activeSlot, activeGeneration := false, NoSlot, 0;
          return false;
        }
        isOpen := true;
      }
      RefreshStatus();
      return true;
    }

    method Load() returns (payload: Option<seq<octet>>)
      requires Valid()
      modifies this, recordBuffer
      ensures Valid() && rawBaseForSave == old(rawBaseForSave) && backend.blobs == old(backend.blobs)
      ensures var out := StorageSlots.Load(setup, old(State()), backend.blobs);
              State() == out.0 && payload == out.1
    {
      hide StorageSlots.SelectLatest, Configurable;
      if !isOpen {
        lastLoadResult := Failure;
        return None;
      }
      var selected := SelectLatest();
      if selected.None? {
        hasValidPayload, activeSlot, activeGeneration := false, NoSlot, 0;
        lastLoadResult := Failure;
        return None;
      }
      hasValidPayload, activeSlot := true, selected.value.slot;
      activeGeneration := selected.value.record.generation;
      lastLoadResult := Success;
      return Some(selected.value.record.payload);
    }

    method LoadLatestRaw(payloadCapacity: nat) returns (out: RawLoad)
      requires Valid()
      modifies this, recordBuffer
      ensures Valid() && rawBaseForSave == old(rawBaseForSave) && backend.blobs == old(backend.blobs)
      ensures (State(), out) == StorageSlots.LoadLatestRaw(setup, old(State()), backend.blobs, payloadCapacity)
    {
      hide StorageSlots.ReadRawSlot, Configurable, Blob;
      rawBaseValid, rawBaseSlot, rawBaseGeneration := false, NoSlot, 0;
      if !isOpen {
        return BadArgument;
      }
      var presentA, a := ReadRawSlot(A);
      var presentB, b := ReadRawSlot(B);
      if a.None? && b.None? {
        return if !presentA && !presentB then Empty else NoValidRecord;
      }
      var selected := Choice(A, if a.Some? then a.value else b.value);
      if b.Some? && (a.None? || IsGenerationNewer(b.value.generation, a.value.generation)) {
        selected := Choice(B, b.value);
      }
      if payloadCapacity < |selected.record.payload| {
        return InsufficientCapacity;
      }
      rawBaseValid, rawBaseSlot, rawBaseGeneration := true, selected.slot, selected.record.generation;
      return RawSuccess(selected.record, selected.slot);
    }

    /** Builds the record in the buffer, field by field. */
    method BuildRecord(generation: nat, payload: seq<octet>)
      requires Valid() && isOpen && |payload| == payloadSize
      modifies recordBuffer
      ensures recordBuffer[..recordSize] == Encode(Record(schemaVersion, generation, payload))
    {
      hide Digits, Checksum, Encode, Configurable;
      ConfiguredSize();
      for i := 0 to recordSize
      {
        recordBuffer[i] := 0;
      }
      WriteUint32(0, MAGIC);
      label AfterMagic:
      WriteUint16(4, FORMAT_VERSION);
      WriteUint16(6, schemaVersion);
      WriteUint32(8, payloadSize);
      WriteUint32(12, generation);
      for i := 0 to payloadSize
        invariant recordBuffer[0..4] == Digits(MAGIC, 4) && recordBuffer[4..6] == Digits(FORMAT_VERSION, 2)
        invariant recordBuffer[6..8] == Digits(schemaVersion, 2) && recordBuffer[8..12] == Digits(payloadSize, 4)
        invariant recordBuffer[12..16] == Digits(generation, 4)
        invariant recordBuffer[HEADER_SIZE..HEADER_SIZE + i] == payload[..i]
      {
        recordBuffer[HEADER_SIZE + i] := payload[i];
      }
      var payloadCrc := ComputeCrc(recordBuffer, HEADER_SIZE, payloadSize);
      assert recordBuffer[HEADER_SIZE..HEADER_SIZE + payloadSize] == payload;
      WriteUint32(16, payloadCrc);
      var headerCrc := ComputeCrc(recordBuffer, 0, HEADER_CRC_INPUT_SIZE);
      label BeforeSeal:
      WriteUint32(20, headerCrc);
      assert recordBuffer[0..HEADER_CRC_INPUT_SIZE] == old@BeforeSeal(recordBuffer[0..HEADER_CRC_INPUT_SIZE]);
      ghost var b := recordBuffer[..recordSize];
      SameSlices();
      assert recordBuffer[HEADER_SIZE..recordSize] == payload;
      AssembledRecord(b, Record(schemaVersion, generation, payload));
    }

    method Save(payload: seq<octet>, outcome: WriteOutcome) returns (ok: bool)
      requires Valid() && (isOpen ==> |payload| == payloadSize)
      requires rawBaseForSave ==> rawBaseValid
      modifies this, recordBuffer, backend
      ensures Valid() && rawBaseForSave == old(rawBaseForSave)
      ensures var out := StorageSlots.Save(setup, old(State()), old(backend.blobs), rawBaseForSave, payload, outcome);
              State() == out.service && backend.blobs == out.blobs && ok == out.ok
    {
      hide StorageSlots.SelectLatest, Configurable, SaveOrKeep;
      if !isOpen {
        lastSaveResult := InvalidArgument;
        return false;
      }
      if !validator(payload) {
        lastSaveResult := ValidationFailure;
        return false;
      }
      ok := SaveValidated(payload, outcome);
    }

    method SaveValidated(payload: seq<octet>, outcome: WriteOutcome) returns (ok: bool)
      requires Valid() && isOpen && |payload| == payloadSize
      requires rawBaseForSave ==> rawBaseValid
      modifies this, recordBuffer, backend
      ensures Valid() && rawBaseForSave == old(rawBaseForSave)
      ensures var out := SaveOrKeep(setup, old(State()), old(backend.blobs), old(RawBase()),
                                    StorageSlots.SelectLatest(setup, old(Format()), old(backend.blobs)), payload,
                                    outcome);
              State() == out.service && backend.blobs == out.blobs && ok == out.ok
    {
      hide StorageService.State, StorageService.Format, StorageSlots.SelectLatest, Configurable, WriteRecord,
           CoversBase,
        SaveBase, NextGeneration, Target;
      StateFields();
      var current := SelectLatest();
      var covers := CoversRawBase(current);
      if current.Some? && covers {
        var same := HoldsPayload(current, payload);
        if same {
          MarkCurrent(current.value.slot, current.value.record.generation, NoChange);
          return true;
        }
      }
      var targetSlot, nextGeneration := PlanSave(current, covers);
      ok := Write(targetSlot, nextGeneration, payload, outcome, SaveBase(RawBase(), current));
    }

    /** The raw base that counts for the running save. */
    function RawBase(): Option<Base>
      reads this
    {
      if rawBaseForSave then Some(Base(rawBaseSlot, rawBaseGeneration)) else None
    }

    method CoversRawBase(current: Option<Choice>) returns (covers: bool)
      ensures current.Some? ==> covers == CoversBase(RawBase(), current.value)
    {
      hide IsGenerationNewer;
      var slot := if current.Some? then current.value.slot else NoSlot;
      var generation := if current.Some? then current.value.record.generation else 0;
      return
        || !rawBaseForSave
        || (slot == rawBaseSlot && generation == rawBaseGeneration)
        || IsGenerationNewer(generation, rawBaseGeneration);
    }

    method PlanSave(current: Option<Choice>, covers: bool) returns (target: Slot, generation: u32)
      requires current.Some? ==> covers == CoversBase(RawBase(), current.value)
      requires rawBaseForSave ==> rawBaseValid
      ensures target == Target(SaveBase(RawBase(), current))
      ensures generation == NextGeneration(SaveBase(RawBase(), current))
    {
      hide CoversBase, Next;
      var useCurrentBase := current.Some? && covers;
      var baseExists := useCurrentBase || (rawBaseForSave && rawBaseValid);
      var baseSlot := if useCurrentBase then current.value.slot else rawBaseSlot;
      var baseGeneration := if useCurrentBase then current.value.record.generation else rawBaseGeneration;
      target := if !baseExists || baseSlot == B then A else B;
      generation := if baseExists then Next(baseGeneration) else 1;
    }

    /** Whether the current record, read once more, holds just this payload. */
    method HoldsPayload(current: Option<Choice>, payload: seq<octet>) returns (same: bool)
      requires Valid() && isOpen && current.Some?
      requires current == StorageSlots.SelectLatest(setup, Format(), backend.blobs)
      modifies recordBuffer
      ensures same <==> current.value.record.payload == payload
    {
      hide StorageSlots.SelectLatest, StorageSlots.ReadSlot, Configurable;
      ConfiguredSize();
      var compared := ReadSlot(current.value.slot);
      SelectedReads(current);
      same := compared.Some? && compared.value.generation == current.value.record.generation &&
              recordBuffer[HEADER_SIZE..recordSize] == payload;
    }

    lemma SelectedReads(c: Option<Choice>)
      requires c == StorageSlots.SelectLatest(setup, Format(), backend.blobs) && c.Some?
      ensures StorageSlots.ReadSlot(setup, Format(), backend.blobs, c.value.slot) == Some(c.value.record)
    {
      hide DecodeCurrent;
    }

    method Write(target: Slot, generation: u32, payload: seq<octet>, outcome: WriteOutcome, ghost base: Option<Base>)
      returns (ok: bool)
      requires Valid() && isOpen && |payload| == payloadSize
      requires target == Target(base) && generation == NextGeneration(base)
      modifies this, recordBuffer, backend
      ensures Valid() && rawBaseForSave == old(rawBaseForSave)
      ensures var out := WriteRecord(setup, old(State()), old(backend.blobs), base, payload, outcome);
              State() == out.service && backend.blobs == out.blobs && ok == out.ok
    {
      hide StorageService.State, StorageService.Format, StorageSlots.SelectLatest, StorageSlots.ReadSlot,
        StorageSlots.RefreshStatus, Configurable, Encode, Next, NextGeneration, Target, Key, AfterWrite, Written;
      StateFields();
      FormatFields();
      var written := StoreRecord(target, generation, payload, outcome);
      if written != recordSize {
        FailSave(BackendFailure);
        return false;
      }
      var verified := VerifyRecord(target, generation, payload);
      if !verified {
        FailSave(VerifyFailure);
        return false;
      }
      MarkCurrent(target, generation, Success);
      return true;
    }

    /** A save has found or made this record the current one. */
    method MarkCurrent(slot: Slot, generation: nat, result: OperationResult)
      modifies `hasValidPayload, `activeSlot, `activeGeneration, `rawBaseValid, `rawBaseSlot, `rawBaseGeneration,
        `lastSaveResult
      ensures State() ==
              Pointing(old(State()), slot, generation).(rawBase := Some(Base(slot, generation)), lastSave := result)
    {
      hasValidPayload, activeSlot, activeGeneration := true, slot, generation;
      rawBaseValid, rawBaseSlot, rawBaseGeneration := true, slot, generation;
      lastSaveResult := result;
    }

    lemma FormatFields()
      ensures Format().schema == schemaVersion && Format().payloadSize == payloadSize
    {
    }

    lemma StateFields()
      ensures State().format == Format() && State().isOpen == isOpen
    {
    }

    /** Assembles the record and hands it to the backend. */
    method StoreRecord(target: Slot, generation: u32, payload: seq<octet>, outcome: WriteOutcome) returns (written: nat)
      requires Valid() && isOpen && |payload| == payloadSize
      modifies recordBuffer, backend
      ensures var blob := Encode(Record(schemaVersion, generation, payload));
              && recordSize == |blob|
              && backend.blobs == AfterWrite(old(backend.blobs), Key(setup, target), blob, outcome)
              && written == Written(blob, outcome)
    {
      hide Configurable, Encode, Key, AfterWrite, Written;
      ConfiguredSize();
      BuildRecord(generation, payload);
      written := backend.WriteBlob(Key(setup, target), recordBuffer, recordSize, outcome);
    }

    /** Reads the record back and compares it. */
    method VerifyRecord(target: Slot, generation: u32, payload: seq<octet>) returns (same: bool)
      requires Valid() && isOpen
      modifies recordBuffer
      ensures var found := StorageSlots.ReadSlot(setup, Format(), backend.blobs, target);
              same <==> found.Some? && found.value.generation == generation && found.value.payload == payload
    {
      hide StorageSlots.ReadSlot, Configurable;
      ConfiguredSize();
      var verified := ReadSlot(target);
      same := verified.Some? && verified.value.generation == generation
        && recordBuffer[HEADER_SIZE..recordSize] == payload;
    }

    method FailSave(result: OperationResult)
      requires Valid() && isOpen
      modifies recordBuffer, `hasValidPayload, `activeSlot, `activeGeneration, `lastSaveResult
      ensures State() == StorageSlots.RefreshStatus(setup, old(State()), backend.blobs).(lastSave := result)
    {
      RefreshStatus();
      lastSaveResult := result;
    }

    method SaveCurrentRaw(schema: u16, payload: seq<octet>, outcome: WriteOutcome) returns (ok: bool)
      requires Valid()
      modifies this, recordBuffer, backend
      ensures Valid() && (rawBaseForSave ==> old(rawBaseForSave))
      ensures var out := StorageSlots.SaveCurrentRaw(setup, old(State()), old(backend.blobs), schema, payload, outcome);
              State() == out.service && backend.blobs == out.blobs && ok == out.ok
    {
      hide StorageSlots.SelectLatest, WriteRecord, Configurable;
      if schema != schemaVersion || |payload| != payloadSize {
        lastSaveResult := InvalidArgument;
        return false;
      }
      rawBaseForSave := rawBaseValid;
      ok := Save(payload, outcome);
      rawBaseForSave := false;
    }
  }
}
