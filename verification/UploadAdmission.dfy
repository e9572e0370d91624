/** The start of a request: which headers the route accepts, what it takes from them, and how it
    answers the others. */
module UploadAdmission {
  import opened Octets
  import opened MultipartRequest
  import Spec = MultipartSpec
  import opened UploadSystem

  /** What an authenticated request brings, and what the route finds: whether the bridge is idle, and
      the free space, if it is known. A missing header is None. */
  datatype Offer = Offer(
    idle: bool, contentType: Option<seq<octet>>, sizeText: Option<seq<octet>>, contentLength: nat, space: Option<u32>)

  datatype Verdict = Accepted(request: Request) | Rejected(status: nat)

  /** The announced size, if it is one. */
  ghost predicate Announces(text: Option<seq<octet>>, size: nat) {
    text.Some? && 1 <= |text.value| <= 10 && Digits(text.value) && 1 <= Decimal(text.value) <= 0xFFFF_FFFF
    && Decimal(text.value) == size
  }

  ghost predicate DeclaresBoundary(contentType: Option<seq<octet>>, b: seq<octet>) {
    contentType.Some? && Declares(contentType.value, b)
  }

  /** Type and size are in order, and so is the free space. */
  ghost predicate WellAnnounced(o: Offer, b: seq<octet>, size: nat) {
    o.idle && DeclaresBoundary(o.contentType, b) && Announces(o.sizeText, size)
  }

  /** Neither the firmware nor the form around it exceeds the free space. */
  predicate Fits(o: Offer, size: nat)
    requires o.space.Some?
  {
    size <= o.space.value && o.contentLength <= o.space.value + 664
  }

  lemma OneBoundary(contentType: Option<seq<octet>>, b: seq<octet>, c: seq<octet>)
    requires DeclaresBoundary(contentType, b) && DeclaresBoundary(contentType, c)
    ensures b == c
  {
    DeclaredExact(contentType.value, b);
    DeclaredExact(contentType.value, c);
  }

  /** The request is taken exactly when the bridge is idle, the headers declare a boundary and a size,
      there is room, and the length is that of a form around the announced firmware. */
  method StartRequest(o: Offer) returns (v: Verdict)
    ensures v.Accepted? ==>
              && Acceptable(v.request) && v.request.contentLength == o.contentLength
              && WellAnnounced(o, v.request.delimiters.boundary, v.request.firmwareSize)
    ensures v.Accepted? <==>
              exists b, size: nat :: WellAnnounced(o, b, size)
                && o.space.Some? && o.space.value > 0 && Fits(o, size)
                && size + 1 <= o.contentLength <= size + 664
    ensures v == Rejected(409) <==> !o.idle
    ensures v == Rejected(503) <==>
              (exists b, size: nat :: WellAnnounced(o, b, size)) && (o.space.None? || o.space.value == 0)
    ensures v == Rejected(413) <==>
              exists b, size: nat :: WellAnnounced(o, b, size) && o.space.Some? && o.space.value > 0
                && (!Fits(o, size) || o.contentLength > size + 664)
    ensures v.Rejected? ==> v.status in {400, 409, 413, 503}
  {
    hide Declares, Digits, Decimal;
    if !o.idle {
      return Rejected(409);
    }
    if o.contentType.None? {
      return Rejected(400);
    }
    var boundary := ParseContentType(o.contentType.value);
    BoundaryFound(o.contentType.value, boundary);
    if boundary.None? {
      return Rejected(400);
    }
    if o.sizeText.None? {
      return Rejected(400);
    }
    var size := ParseFirmwareSize(o.sizeText.value);
    if size.None? {
      return Rejected(400);
    }
    assert WellAnnounced(o, boundary.value, size.value);
    OnlyBoundary(o.contentType, boundary.value);
    if o.space.None? || o.space.value == 0 {
      return Rejected(503);
    }
    if size.value > o.space.value || o.contentLength > o.space.value + 664 {
      return Rejected(413);
    }
    if !Spec.ValidContentLength(o.contentLength, size.value) {
      return Rejected(if o.contentLength > size.value + 664 then 413 else 400);
    }
    BoundaryLength(boundary.value);
    return Accepted(Request(Spec.Delimiters(boundary.value), size.value, o.contentLength));
  }

  lemma BoundaryFound(value: seq<octet>, r: Option<seq<octet>>)
    requires r == DeclaredBoundary(value)
    ensures r.Some? ==> Declares(value, r.value) && ValidBoundary(r.value)
    ensures r.None? ==> forall b :: !Declares(value, b)
  {
    hide Declares;
    if r.Some? {
      DeclaredExact(value, r.value);
    }
    forall b ensures Declares(value, b) ==> r == Some(b) {
      DeclaredExact(value, b);
    }
  }

  lemma OnlyBoundary(contentType: Option<seq<octet>>, b: seq<octet>)
    requires DeclaresBoundary(contentType, b)
    ensures forall c :: DeclaresBoundary(contentType, c) ==> c == b
  {
    forall c | DeclaresBoundary(contentType, c) ensures c == b {
      OneBoundary(contentType, b, c);
    }
  }

  lemma BoundaryLength(b: seq<octet>)
    requires ValidBoundary(b)
    ensures 1 <= |b| <= 70
  {
  }
}
