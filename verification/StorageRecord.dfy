/** The stored record: a sealed 24-byte header followed by the payload. */
module StorageRecord {
  import opened Crc32
  import opened LittleEndian
  import opened Octets

  const MAGIC: nat := 0x4C53_4346
  const FORMAT_VERSION: nat := 1
  const HEADER_CRC_INPUT_SIZE: nat := 20
  const HEADER_SIZE: nat := 24

  datatype Record = Record(schema: nat, generation: nat, payload: seq<octet>)

  /** The fields fit the widths the header gives them. */
  predicate Fits(r: Record) {
    r.schema < 0x1_0000 && r.generation < 0x1_0000_0000 && |r.payload| < 0x1_0000_0000
  }

  /** The header bytes that its own checksum covers. */
  function SealedPart(schema: nat, length: nat, generation: nat, payloadCrc: nat): (bytes: seq<octet>)
    ensures |bytes| == HEADER_CRC_INPUT_SIZE
  {
    Digits(MAGIC, 4) + Digits(FORMAT_VERSION, 2) + Digits(schema, 2) + Digits(length, 4) +
    Digits(generation, 4) + Digits(payloadCrc, 4)
  }

  function Header(r: Record): (bytes: seq<octet>)
    ensures |bytes| == HEADER_SIZE
  {
    var body := SealedPart(r.schema, |r.payload|, r.generation, Checksum(r.payload));
    body + Digits(Checksum(body), 4)
  }

  function Encode(r: Record): (blob: seq<octet>)
    ensures |blob| == HEADER_SIZE + |r.payload|
  {
    Header(r) + r.payload
  }

  function Field(blob: seq<octet>, offset: nat, width: nat): nat
    requires offset + width <= |blob|
  {
    Number(blob[offset..offset + width])
  }

  /** A blob any version of the software accepts: well formed and undamaged. */
  function DecodeRaw(blob: seq<octet>, capacity: nat): Option<Record> {
    if |blob| < HEADER_SIZE || |blob| > capacity then None
    else if Field(blob, 0, 4) != MAGIC || Field(blob, 4, 2) != FORMAT_VERSION then None
    else if Checksum(blob[..HEADER_CRC_INPUT_SIZE]) != Field(blob, 20, 4) then None
    else if HEADER_SIZE + Field(blob, 8, 4) != |blob| then None
    else if Checksum(blob[HEADER_SIZE..]) != Field(blob, 16, 4) then None
    else Some(Record(Field(blob, 6, 2), Field(blob, 12, 4), blob[HEADER_SIZE..]))
  }

  /** What the running software expects of a payload. */
  datatype Format = Format(payloadSize: nat, schema: u16, validator: seq<octet> -> bool)

  /** A blob the running software accepts. */
  function DecodeCurrent(blob: seq<octet>, format: Format): Option<Record> {
    if |blob| != HEADER_SIZE + format.payloadSize then None
    else if (
      || Field(blob, 0, 4) != MAGIC
      || Field(blob, 4, 2) != FORMAT_VERSION
      || Field(blob, 6, 2) != format.schema
      || Field(blob, 8, 4) != format.payloadSize
    ) then None
    else if Checksum(blob[..HEADER_CRC_INPUT_SIZE]) != Field(blob, 20, 4) then None
    else if Checksum(blob[HEADER_SIZE..]) != Field(blob, 16, 4) then None
    else if !format.validator(blob[HEADER_SIZE..]) then None
    else Some(Record(Field(blob, 6, 2), Field(blob, 12, 4), blob[HEADER_SIZE..]))
  }

  predicate Accepts(format: Format, r: Record) {
    r.schema == format.schema && |r.payload| == format.payloadSize && format.validator(r.payload)
  }

  // ------------------------------------------------------------ one blob per record

  lemma SplitHeader(blob: seq<octet>)
    requires |blob| >= HEADER_SIZE
    ensures blob == blob[0..4] + blob[4..6] + blob[6..8] + blob[8..12] + blob[12..16] + blob[16..20]
                    + blob[20..24] + blob[HEADER_SIZE..]
    ensures blob[..HEADER_CRC_INPUT_SIZE]
         == blob[0..4] + blob[4..6] + blob[6..8] + blob[8..12] + blob[12..16] + blob[16..20]
  {
  }

  lemma SealedPartFields(schema: nat, length: nat, generation: nat, payloadCrc: nat)
    ensures var b := SealedPart(schema, length, generation, payloadCrc);
            && b[0..4] == Digits(MAGIC, 4) && b[4..6] == Digits(FORMAT_VERSION, 2)
            && b[6..8] == Digits(schema, 2) && b[8..12] == Digits(length, 4)
            && b[12..16] == Digits(generation, 4) && b[16..20] == Digits(payloadCrc, 4)
  {
    hide Digits;
  }

  lemma EncodedParts(r: Record)
    ensures var blob := Encode(r);
            var body := SealedPart(r.schema, |r.payload|, r.generation, Checksum(r.payload));
            && blob[..HEADER_CRC_INPUT_SIZE] == body
            && blob[20..24] == Digits(Checksum(body), 4)
            && blob[HEADER_SIZE..] == r.payload
            && (forall i, j :: 0 <= i <= j <= 20 ==> blob[i..j] == body[i..j])
  {
    hide Digits, Checksum, SealedPart;
    var body := SealedPart(r.schema, |r.payload|, r.generation, Checksum(r.payload));
    var blob := Encode(r);
    forall i, j | 0 <= i <= j <= 20 ensures blob[i..j] == body[i..j] {
      assert blob[..20] == body;
    }
  }

  lemma EncodedFields(r: Record)
    requires Fits(r)
    ensures var blob := Encode(r);
            && Field(blob, 0, 4) == MAGIC && Field(blob, 4, 2) == FORMAT_VERSION
            && Field(blob, 6, 2) == r.schema && Field(blob, 8, 4) == |r.payload|
            && Field(blob, 12, 4) == r.generation && Field(blob, 16, 4) == Checksum(r.payload)
            && Field(blob, 20, 4) == Checksum(blob[..HEADER_CRC_INPUT_SIZE])
            && blob[HEADER_SIZE..] == r.payload
  {
    hide Digits, Number, Checksum, SealedPart, Encode, Power256;
    EncodedParts(r);
    SealedPartFields(r.schema, |r.payload|, r.generation, Checksum(r.payload));
    Powers();
    NumberOfDigits(MAGIC, 4);
    NumberOfDigits(FORMAT_VERSION, 2);
    NumberOfDigits(r.schema, 2);
    NumberOfDigits(|r.payload|, 4);
    NumberOfDigits(r.generation, 4);
    NumberOfDigits(Checksum(r.payload), 4);
    var body := SealedPart(r.schema, |r.payload|, r.generation, Checksum(r.payload));
    NumberOfDigits(Checksum(body), 4);
    var blob := Encode(r);
    assert blob[0..4] == body[0..4] && blob[4..6] == body[4..6] && blob[6..8] == body[6..8];
    assert blob[8..12] == body[8..12] && blob[12..16] == body[12..16] && blob[16..20] == body[16..20];
  }

  /** A stored blob is re-encoded from its own fields. */
  lemma DigitsOfField(blob: seq<octet>, offset: nat, width: nat)
    requires offset + width <= |blob|
    ensures Digits(Field(blob, offset, width), width) == blob[offset..offset + width]
    ensures Field(blob, offset, width) < Power256(width)
  {
    hide Digits, Number;
    DigitsOfNumber(blob[offset..offset + width]);
  }

  lemma RawIsEncoded(blob: seq<octet>, capacity: nat, r: Record)
    requires DecodeRaw(blob, capacity) == Some(r)
    ensures Fits(r) && blob == Encode(r)
  {
    hide Digits, Number, Checksum, Power256, Field;
    DigitsOfField(blob, 0, 4);
    DigitsOfField(blob, 4, 2);
    DigitsOfField(blob, 6, 2);
    DigitsOfField(blob, 8, 4);
    DigitsOfField(blob, 12, 4);
    DigitsOfField(blob, 16, 4);
    DigitsOfField(blob, 20, 4);
    Powers();
    SplitHeader(blob);
    assert blob[..HEADER_CRC_INPUT_SIZE] == SealedPart(r.schema, |r.payload|, r.generation, Checksum(r.payload));
  }

  /** The raw reader accepts exactly the encodings of records that fit, and returns them. */
  lemma RawExact(blob: seq<octet>, capacity: nat, r: Record)
    ensures DecodeRaw(blob, capacity) == Some(r) <==> Fits(r) && |blob| <= capacity && blob == Encode(r)
  {
    hide Digits, Number, Checksum, Encode, Field;
    if DecodeRaw(blob, capacity) == Some(r) {
      RawIsEncoded(blob, capacity, r);
    } else if Fits(r) && |blob| <= capacity && blob == Encode(r) {
      EncodedFields(r);
    }
  }

  /** The typed reader accepts exactly the raw records of its own format. */
  lemma CurrentExact(blob: seq<octet>, capacity: nat, format: Format, r: Record)
    requires HEADER_SIZE + format.payloadSize <= capacity
    ensures DecodeCurrent(blob, format) == Some(r) <==> DecodeRaw(blob, capacity) == Some(r) && Accepts(format, r)
  {
    hide Number, Checksum;
  }

  // ------------------------------------------------------------ damage

  lemma SealOfHeader(blob: seq<octet>)
    requires |blob| >= HEADER_SIZE
    ensures Sealed(blob[..HEADER_SIZE]) <==> Field(blob, 20, 4) == Checksum(blob[..HEADER_CRC_INPUT_SIZE])
  {
    hide Number, Checksum;
    var head := blob[..HEADER_SIZE];
    assert head[..20] == blob[..20] && head[20..] == blob[20..24];
  }

  /** Damage confined to four consecutive bytes of a stored record, wherever they lie, is
      noticed by both readers. */
  lemma DamageRejected(blob: seq<octet>, damaged: seq<octet>, capacity: nat, format: Format, from: nat)
    requires DecodeRaw(blob, capacity).Some?
    requires |damaged| == |blob| && damaged != blob && SameOutside(blob, damaged, from)
    ensures DecodeRaw(damaged, capacity) == None && DecodeCurrent(damaged, format) == None
  {
    hide Checksum, Number, Sealed;
    var h, h' := blob[..HEADER_SIZE], damaged[..HEADER_SIZE];
    SealOfHeader(blob);
    SealOfHeader(damaged);
    if h != h' {
      assert SameOutside(h, h', from);
      if Sealed(h') {
        SealDetectsBurst(h, h', from);
        assert false;
      }
    } else {
      PayloadDamage(blob, damaged, from);
      assert blob[16..20] == h[16..20] && damaged[16..20] == h'[16..20];
    }
  }

  lemma PayloadDamage(blob: seq<octet>, damaged: seq<octet>, from: nat)
    requires |damaged| == |blob| >= HEADER_SIZE && damaged != blob && SameOutside(blob, damaged, from)
    requires blob[..HEADER_SIZE] == damaged[..HEADER_SIZE]
    ensures Checksum(blob[HEADER_SIZE..]) != Checksum(damaged[HEADER_SIZE..])
  {
    hide Checksum;
    var p, p' := blob[HEADER_SIZE..], damaged[HEADER_SIZE..];
    assert blob == blob[..HEADER_SIZE] + p && damaged == damaged[..HEADER_SIZE] + p';
    var start := if from < HEADER_SIZE then 0 else from - HEADER_SIZE;
    assert SameOutside(p, p', start);
    ChecksumBurst(p, p', start);
  }
}
