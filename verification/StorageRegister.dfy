/** One save seen as a step of a crash-atomic register. */
module StorageRegister {
  import opened Octets
  import opened StorageRecord
  import opened StorageSlots

  /** Two readable records are always neighbours in the modular order. */
  predicate Adjacent(a: Option<Record>, b: Option<Record>) {
    a.Some? && b.Some? ==>
      b.value.generation == Next(a.value.generation) || a.value.generation == Next(b.value.generation)
  }

  /** What holds of the stored blobs between operations. */
  predicate SlotsInOrder(setup: Setup, blobs: Blobs) {
    Adjacent(ReadRawSlot(setup, blobs, A), ReadRawSlot(setup, blobs, B))
  }

  // ------------------------------------------------------------ generations

  lemma NextIsNewer(g: nat)
    requires g < 0x1_0000_0000
    ensures IsGenerationNewer(Next(g), g) && !IsGenerationNewer(g, Next(g))
    ensures Next(g) != g && Next(Next(g)) != g && !IsGenerationNewer(g, g)
  {
  }

  lemma GenerationsFit(setup: Setup, blobs: Blobs, slot: Slot)
    ensures ReadRawSlot(setup, blobs, slot).Some? ==> Fits(ReadRawSlot(setup, blobs, slot).value)
  {
    hide DecodeRaw, Fits;
    var r := ReadRawSlot(setup, blobs, slot);
    if r.Some? {
      RawIsEncoded(Blob(setup, blobs, slot), setup.capacity, r.value);
    }
  }

  /** Of two neighbours, whatever the wrap-around, the later one is selected. */
  lemma LatestIsSuccessor(a: Record, b: Record)
    requires a.generation < 0x1_0000_0000 && b.generation < 0x1_0000_0000
    ensures b.generation == Next(a.generation) ==> Latest(Some(a), Some(b)) == Some(Choice(B, b))
    ensures a.generation == Next(b.generation) ==> Latest(Some(a), Some(b)) == Some(Choice(A, a))
  {
    NextIsNewer(a.generation);
    NextIsNewer(b.generation);
  }

  // ------------------------------------------------------------ the two readers

  lemma SlotIsRaw(setup: Setup, format: Format, blobs: Blobs, slot: Slot, r: Record)
    requires HEADER_SIZE + format.payloadSize <= setup.capacity
    ensures ReadSlot(setup, format, blobs, slot) == Some(r) <==>
            ReadRawSlot(setup, blobs, slot) == Some(r) && Accepts(format, r)
  {
    hide DecodeRaw, DecodeCurrent, Accepts;
    CurrentExact(Blob(setup, blobs, slot), setup.capacity, format, r);
  }

  function Filtered(format: Format, r: Option<Record>): Option<Record> {
    if r.Some? && Accepts(format, r.value) then r else None
  }

  lemma SlotIsFiltered(setup: Setup, format: Format, blobs: Blobs, slot: Slot)
    requires HEADER_SIZE + format.payloadSize <= setup.capacity
    ensures ReadSlot(setup, format, blobs, slot) == Filtered(format, ReadRawSlot(setup, blobs, slot))
  {
    hide ReadSlot, ReadRawSlot, Accepts;
    var raw, typed := ReadRawSlot(setup, blobs, slot), ReadSlot(setup, format, blobs, slot);
    if raw.Some? {
      SlotIsRaw(setup, format, blobs, slot, raw.value);
    }
    if typed.Some? {
      SlotIsRaw(setup, format, blobs, slot, typed.value);
    }
  }

  function Other(slot: Slot): Slot {
    if slot == A then B else A
  }

  /** The typed reader agrees with the raw one on the newest record, or falls back to the
      older one when the newest is of another format. */
  lemma TypedSelection(setup: Setup, format: Format, blobs: Blobs)
    requires HEADER_SIZE + format.payloadSize <= setup.capacity && SlotsInOrder(setup, blobs)
    ensures var raw := SelectRaw(setup, blobs);
            var typed := SelectLatest(setup, format, blobs);
            && (raw.None? ==> typed.None?)
            && (raw.Some? && Accepts(format, raw.value.record) ==> typed == raw)
            && (raw.Some? && !Accepts(format, raw.value.record) && typed.Some? ==>
                  && typed.value.slot == Other(raw.value.slot)
                  && raw.value.record.generation == Next(typed.value.record.generation)
                  && typed.value.record.generation < 0x1_0000_0000)
  {
    hide ReadSlot, ReadRawSlot, Accepts, Fits, Next, IsGenerationNewer;
    var a, b := ReadRawSlot(setup, blobs, A), ReadRawSlot(setup, blobs, B);
    SlotIsFiltered(setup, format, blobs, A);
    SlotIsFiltered(setup, format, blobs, B);
    Bounded(setup, blobs);
    if a.Some? && b.Some? {
      LatestIsSuccessor(a.value, b.value);
    }
  }

  lemma Bounded(setup: Setup, blobs: Blobs)
    ensures var a, b := ReadRawSlot(setup, blobs, A), ReadRawSlot(setup, blobs, B);
            && (a.Some? ==> a.value.generation < 0x1_0000_0000)
            && (b.Some? ==> b.value.generation < 0x1_0000_0000)
  {
    hide DecodeRaw;
    GenerationsFit(setup, blobs, A);
    GenerationsFit(setup, blobs, B);
  }

  // ------------------------------------------------------------ which slot a save writes

  function BaseOf(c: Option<Choice>): Option<Base> {
    if c.None? then None else Some(Base(c.value.slot, c.value.record.generation))
  }

  /** The save builds on the newest record: it is readable in the running format, or it is the
      base the raw reader left behind. */
  predicate Grounded(setup: Setup, format: Format, blobs: Blobs, base: Option<Base>) {
    var newest := SelectRaw(setup, blobs);
    && (base.Some? ==> base == BaseOf(newest))
    && (newest.Some? ==> Accepts(format, newest.value.record) || base == BaseOf(newest))
  }

  lemma BaseIsNewest(setup: Setup, format: Format, blobs: Blobs, base: Option<Base>)
    requires HEADER_SIZE + format.payloadSize <= setup.capacity && SlotsInOrder(setup, blobs)
    requires Grounded(setup, format, blobs, base)
    ensures var current := SelectLatest(setup, format, blobs);
            && SaveBase(base, current) == BaseOf(SelectRaw(setup, blobs))
            && (current.Some? && CoversBase(base, current.value) ==> current == SelectRaw(setup, blobs))
  {
    hide ReadSlot, ReadRawSlot, Accepts, SelectRaw, SelectLatest, SlotsInOrder, Next, IsGenerationNewer;
    TypedSelection(setup, format, blobs);
    var raw, typed := SelectRaw(setup, blobs), SelectLatest(setup, format, blobs);
    if raw.Some? && !Accepts(format, raw.value.record) && typed.Some? {
      NextIsNewer(typed.value.record.generation);
    }
  }

  /** Exactly when a save spares the record it would fall back to: when it builds on that record,
      or when that record happens to sit in slot B and nothing else is readable. */
  lemma TargetSpares(setup: Setup, format: Format, blobs: Blobs, base: Option<Base>)
    requires HEADER_SIZE + format.payloadSize <= setup.capacity && SlotsInOrder(setup, blobs)
    requires base.Some? ==> base == BaseOf(SelectRaw(setup, blobs))
    ensures var newest := SelectRaw(setup, blobs);
            var current := SelectLatest(setup, format, blobs);
            newest.Some? ==>
              (Target(SaveBase(base, current)) != newest.value.slot <==>
                Grounded(setup, format, blobs, base) || (newest.value.slot == B && current.None?))
  {
    hide ReadSlot, ReadRawSlot, Accepts, SelectLatest, SlotsInOrder, Next, IsGenerationNewer;
    TypedSelection(setup, format, blobs);
    if Grounded(setup, format, blobs, base) {
      BaseIsNewest(setup, format, blobs, base);
    }
    var raw, typed := SelectRaw(setup, blobs), SelectLatest(setup, format, blobs);
    if raw.Some? && !Accepts(format, raw.value.record) && typed.Some? {
      NextIsNewer(typed.value.record.generation);
    }
  }

  lemma NothingReads(setup: Setup, blobs: Blobs)
    requires setup.keyB !in blobs
    ensures ReadRawSlot(setup, blobs, B) == None
  {
  }

  /** A store where it goes wrong: one record of an older format, in slot A. A plain save of the
      software with the newer format sees nothing to build on and writes over that record. */
  lemma PlainSaveHitsOlderFormat(setup: Setup, older: Format, newer: Format, payload: seq<octet>)
    requires setup.keyA != setup.keyB && Configurable(setup, older) && Configurable(setup, newer)
    requires older.schema != newer.schema && |payload| == older.payloadSize && older.validator(payload)
    ensures var r := Record(older.schema, 1, payload);
            var blobs := map[setup.keyA := Encode(r)];
            && SlotsInOrder(setup, blobs)
            && SelectRaw(setup, blobs) == Some(Choice(A, r))
            && !Grounded(setup, newer, blobs, None)
            && Target(SaveBase(None, SelectLatest(setup, newer, blobs))) == A
  {
    hide DecodeRaw, DecodeCurrent, Encode;
    var r := Record(older.schema, 1, payload);
    var blobs := map[setup.keyA := Encode(r)];
    NewRecordReads(setup, older, r);
    assert Blob(setup, blobs, A) == Encode(r);
    NothingReads(setup, blobs);
    SlotIsFiltered(setup, newer, blobs, A);
    SlotIsFiltered(setup, newer, blobs, B);
  }

  // ------------------------------------------------------------ what a write leaves

  /** A failed or interrupted write leaves the old blob or one that neither reader accepts. */
  predicate TornWrite(setup: Setup, format: Format, blobs: Blobs, slot: Slot, outcome: WriteOutcome) {
    outcome.Torn? ==>
      || outcome.left == Blob(setup, blobs, slot)
      || (DecodeRaw(outcome.left, setup.capacity).None? && DecodeCurrent(outcome.left, format).None?)
  }

  lemma OtherSlotKept(setup: Setup, blobs: Blobs, slot: Slot, blob: seq<octet>, outcome: WriteOutcome)
    requires setup.keyA != setup.keyB && slot != NoSlot
    ensures var after := AfterWrite(blobs, Key(setup, slot), blob, outcome);
            && Blob(setup, after, Other(slot)) == Blob(setup, blobs, Other(slot))
            && Blob(setup, after, slot) == (if outcome.Complete? then blob else outcome.left)
  {
  }

  function NewRecord(format: Format, blobs: Blobs, setup: Setup, payload: seq<octet>): Record {
    Record(format.schema, NextGeneration(BaseOf(SelectRaw(setup, blobs))), payload)
  }

  lemma NewRecordReads(setup: Setup, format: Format, r: Record)
    requires Configurable(setup, format) && Accepts(format, r) && r.generation < 0x1_0000_0000
    ensures DecodeRaw(Encode(r), setup.capacity) == Some(r)
    ensures DecodeCurrent(Encode(r), format) == Some(r)
  {
    hide DecodeRaw, DecodeCurrent, Header;
    RawExact(Encode(r), setup.capacity, r);
    CurrentExact(Encode(r), setup.capacity, format, r);
  }

  /** After a write to the slot beside the newest record, the newest record is the new one or
      the old one, and the slots are still in order. */
  lemma WriteBeside(setup: Setup, format: Format, blobs: Blobs, payload: seq<octet>, outcome: WriteOutcome)
    requires setup.keyA != setup.keyB && Configurable(setup, format) && SlotsInOrder(setup, blobs)
    requires |payload| == format.payloadSize && format.validator(payload)
    requires TornWrite(setup, format, blobs, Target(BaseOf(SelectRaw(setup, blobs))), outcome)
    ensures var target := Target(BaseOf(SelectRaw(setup, blobs)));
            var r := NewRecord(format, blobs, setup, payload);
            var after := AfterWrite(blobs, Key(setup, target), Encode(r), outcome);
            && SlotsInOrder(setup, after)
            && SelectRaw(setup, after) ==
               (if outcome.Complete? then Some(Choice(target, r)) else SelectRaw(setup, blobs))
            && ReadRawSlot(setup, after, Other(target)) == ReadRawSlot(setup, blobs, Other(target))
            && (outcome.Complete? ==> ReadSlot(setup, format, after, target) == Some(r))
  {
    hide DecodeRaw, DecodeCurrent, Encode, Key, Blob, AfterWrite, Next, IsGenerationNewer;
    var newest := SelectRaw(setup, blobs);
    var target := Target(BaseOf(newest));
    var r := NewRecord(format, blobs, setup, payload);
    var after := AfterWrite(blobs, Key(setup, target), Encode(r), outcome);
    OtherSlotKept(setup, blobs, target, Encode(r), outcome);
    NewRecordReads(setup, format, r);
    Bounded(setup, blobs);
    SelectionAfter(ReadRawSlot(setup, blobs, A), ReadRawSlot(setup, blobs, B), r.generation, r);
    if outcome.Torn? {
      TornSelection(ReadRawSlot(setup, blobs, A), ReadRawSlot(setup, blobs, B), ReadRawSlot(setup, after, target));
    }
  }

  /** Selection after replacing the slot beside the newest record by its successor. */
  lemma SelectionAfter(a: Option<Record>, b: Option<Record>, generation: nat, r: Record)
    requires Adjacent(a, b) && r.generation == generation == NextGeneration(BaseOf(Latest(a, b)))
    requires a.Some? ==> a.value.generation < 0x1_0000_0000
    requires b.Some? ==> b.value.generation < 0x1_0000_0000
    ensures var target := Target(BaseOf(Latest(a, b)));
            && (target == A ==> Adjacent(Some(r), b) && Latest(Some(r), b) == Some(Choice(A, r)))
            && (target == B ==> Adjacent(a, Some(r)) && Latest(a, Some(r)) == Some(Choice(B, r)))
  {
    hide Next, IsGenerationNewer;
    if a.Some? {
      LatestIsSuccessor(a.value, r);
    }
    if b.Some? {
      LatestIsSuccessor(r, b.value);
    }
    if a.Some? && b.Some? {
      LatestIsSuccessor(a.value, b.value);
    }
  }

  /** Selection after losing or keeping the slot beside the newest record. */
  lemma TornSelection(a: Option<Record>, b: Option<Record>, left: Option<Record>)
    requires Adjacent(a, b)
    requires a.Some? ==> a.value.generation < 0x1_0000_0000
    requires b.Some? ==> b.value.generation < 0x1_0000_0000
    requires left.None? || left == if Target(BaseOf(Latest(a, b))) == A then a else b
    ensures var target := Target(BaseOf(Latest(a, b)));
            && (target == A ==> Adjacent(left, b) && Latest(left, b) == Latest(a, b))
            && (target == B ==> Adjacent(a, left) && Latest(a, left) == Latest(a, b))
  {
    hide Next, IsGenerationNewer;
    if a.Some? && b.Some? {
      LatestIsSuccessor(a.value, b.value);
    }
  }
}
