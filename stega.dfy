/**
 * The steganographic container codec of `hideDataInImage` and
 * `extractDataFromImage` (utils/stega.ts), with the image decoding and
 * encoding around the pixel buffer left out.
 *
 * Container = "MIDA" ‖ headerLen (uint32, big-endian) ‖ header ‖
 *             payloadLen (uint32, big-endian) ‖ payload
 *
 * The header is the metadata serialised by `JSON.stringify` and encoded as
 * UTF-8; the model takes that serialisation and its parser as parameters.
 */
module Stega {
  import opened Results
  import opened Bytes
  import opened PixelChannel

  datatype FileMetadata = FileMetadata(name: string, mimeType: string)

  /** `new TextEncoder().encode("MIDA")`: the four ASCII bytes of the marker. */
  const Marker: seq<byte> := [0x4D, 0x49, 0x44, 0x41]

  /** The largest header length extraction accepts. */
  const MaxHeaderLen: nat := 10000

  // ---------------------------------------------------------------------------
  // Framing
  // ---------------------------------------------------------------------------

  /** The container bytes for a header and a payload. */
  function ContainerLayout(header: seq<byte>, payload: seq<byte>): seq<byte>
  {
    Marker + U32BE(|header|) + header + U32BE(|payload|) + payload
  }

  /**
   * The container is 4 + 4 + |header| + 4 + |payload| bytes long and holds each
   * field at its offset.
   */
  lemma ContainerFields(header: seq<byte>, payload: seq<byte>)
    ensures |ContainerLayout(header, payload)| == 4 + 4 + |header| + 4 + |payload|
    ensures ContainerLayout(header, payload)[0 .. 4] == Marker
    ensures ContainerLayout(header, payload)[4 .. 8] == U32BE(|header|)
    ensures ContainerLayout(header, payload)[8 .. 8 + |header|] == header
    ensures ContainerLayout(header, payload)[8 + |header| .. 8 + |header| + 4] == U32BE(|payload|)
    ensures ContainerLayout(header, payload)[8 + |header| + 4 .. 8 + |header| + 4 + |payload|] == payload
  {
    var c := ContainerLayout(header, payload);
    assert c == (((Marker + U32BE(|header|)) + header) + U32BE(|payload|)) + payload;
  }

  /**
   * Builds the container in a zero-filled `Uint8Array` of the exact size with a
   * moving offset, as `hideDataInImage` fills `finalBuffer`.
   */
  method BuildContainer(header: seq<byte>, payload: seq<byte>) returns (c: seq<byte>)
    ensures c == ContainerLayout(header, payload)
  {
    var finalBuffer := new byte[|Marker| + 4 + |header| + 4 + |payload|](_ => 0);
    var offset := 0;
    Set(finalBuffer, Marker, offset);
    offset := offset + |Marker|;
    assert finalBuffer[..offset] == Marker;
    SetUint32(finalBuffer, offset, |header|);
    offset := offset + 4;
    assert finalBuffer[..offset] == Marker + U32BE(|header|);
    Set(finalBuffer, header, offset);
    offset := offset + |header|;
    assert finalBuffer[..offset] == Marker + U32BE(|header|) + header;
    SetUint32(finalBuffer, offset, |payload|);
    offset := offset + 4;
    assert finalBuffer[..offset] == Marker + U32BE(|header|) + header + U32BE(|payload|);
    Set(finalBuffer, payload, offset);
    assert finalBuffer[..finalBuffer.Length] == ContainerLayout(header, payload);
    c := finalBuffer[..];
  }

  // ---------------------------------------------------------------------------
  // Capacity
  // ---------------------------------------------------------------------------

  /**
   * The capacity check passes: not `containerLen * 8 > (pixelLen / 4) * 3`.
   * The division there is JavaScript's real division, so the test is exactly
   * 32 * containerLen <= 3 * pixelLen.
   */
  predicate Fits(containerLen: nat, pixelLen: nat)
  {
    containerLen * 8 * 4 <= pixelLen * 3
  }

  /** A container that passes the check has no more bits than the buffer has colour bytes. */
  lemma FitsInChannel(containerLen: nat, pixelLen: nat)
    requires Fits(containerLen, pixelLen)
    ensures 8 * containerLen <= Capacity(pixelLen)
  {
  }

  /**
   * Writing a container that passes the capacity check and reading as many
   * bytes back from pixel pointer 0 returns the container.
   */
  lemma EmbedThenRead(p: seq<byte>, c: seq<byte>)
    requires Fits(|c|, |p|)
    ensures GetBytesSpec(Embedded(p, c), 0, |c|).0 == c
  {
    FitsInChannel(|c|, |p|);
    ReadEmbedded(p, c, 0, 0, |c|);
  }

  /**
   * For an RGBA buffer (4 bytes per pixel) the check admits a container exactly
   * when its bits fit in 3 bits per pixel: a container of exactly that many bits
   * passes, any more fails.
   */
  lemma FitsExactly(containerLen: nat, pixelLen: nat)
    requires pixelLen % 4 == 0
    ensures Fits(containerLen, pixelLen) <==> 8 * containerLen <= (pixelLen / 4) * 3
  {
  }

  // ---------------------------------------------------------------------------
  // Embedding
  // ---------------------------------------------------------------------------

  datatype HideError = ImageTooSmall

  /**
   * The core of `hideDataInImage` between `getImageData` and `putImageData`:
   * build the container, check capacity, then write the container bits into
   * the pixel buffer. `serialize` stands for `TextEncoder().encode(JSON.stringify(·))`.
   */
  method HideData(pixels: array<byte>, payload: seq<byte>, metadata: FileMetadata,
                  serialize: FileMetadata -> seq<byte>)
    returns (r: Result<(), HideError>)
    modifies pixels
    ensures r.Success? <==> Fits(|ContainerLayout(serialize(metadata), payload)|, pixels.Length)
    ensures r.Failure? ==> r.error == ImageTooSmall && pixels[..] == old(pixels[..])
    ensures r.Success? ==> pixels[..] == Embedded(old(pixels[..]), ContainerLayout(serialize(metadata), payload))
  {
    var headerBytes := serialize(metadata);
    var finalBuffer := BuildContainer(headerBytes, payload);
    if !Fits(|finalBuffer|, pixels.Length) {
      return Failure(ImageTooSmall);
    }
    WriteBits(pixels, finalBuffer);
    return Success(());
  }

  // ---------------------------------------------------------------------------
  // Extraction
  // ---------------------------------------------------------------------------

  datatype ExtractError =
    | NotAContainer        // the marker is not "MIDA"
    | InvalidHeaderLength  // headerLen == 0 or headerLen > 10000
    | MalformedHeader      // the header does not parse as metadata
    | NoPayload            // payloadLen == 0

  datatype Extracted = Extracted(data: seq<byte>, name: string, mimeType: string)

  /**
   * What `extractDataFromImage` settles with for the pixel buffer p: the fields
   * read one after another by `getBytes` from pixel pointer 0, each checked
   * before the next is read. `parse` stands for
   * `JSON.parse(new TextDecoder().decode(·))`, None where it throws.
   * Step 1: the marker.
   */
  function ExtractSpec(p: seq<byte>, parse: seq<byte> -> Option<FileMetadata>): Result<Extracted, ExtractError>
  {
    var (markerBytes, q) := GetBytesSpec(p, 0, |Marker|);
    if markerBytes != Marker then Failure(NotAContainer)
    else ExtractFromHeaderLen(p, q, parse)
  }

  /** Step 2: the header length, read at pixel pointer q. */
  function ExtractFromHeaderLen(p: seq<byte>, q: nat, parse: seq<byte> -> Option<FileMetadata>): Result<Extracted, ExtractError>
  {
    var (headerLenBytes, q') := GetBytesSpec(p, q, 4);
    var headerLen := U32Value(headerLenBytes);
    if headerLen == 0 || headerLen > MaxHeaderLen then Failure(InvalidHeaderLength)
    else ExtractFromHeader(p, q', headerLen, parse)
  }

  /** Step 3: the header of headerLen bytes, read at pixel pointer q and parsed. */
  function ExtractFromHeader(p: seq<byte>, q: nat, headerLen: nat, parse: seq<byte> -> Option<FileMetadata>): Result<Extracted, ExtractError>
  {
    var (headerBytes, q') := GetBytesSpec(p, q, headerLen);
    match parse(headerBytes)
    case None => Failure(MalformedHeader)
    case Some(metadata) => ExtractFromPayloadLen(p, q', metadata)
  }

  /** Steps 4 and 5: the payload length and the payload, read at pixel pointer q. */
  function ExtractFromPayloadLen(p: seq<byte>, q: nat, metadata: FileMetadata): Result<Extracted, ExtractError>
  {
    var (payloadLenBytes, q') := GetBytesSpec(p, q, 4);
    var payloadLen := U32Value(payloadLenBytes);
    if payloadLen == 0 then Failure(NoPayload)
    else Success(Extracted(GetBytesSpec(p, q', payloadLen).0, metadata.name, metadata.mimeType))
  }

  /**
   * The core of `extractDataFromImage` after `getImageData`: a `getBytes`
   * reader over the pixels and the field-by-field parse.
   */
  method ExtractData(pixels: array<byte>, parse: seq<byte> -> Option<FileMetadata>)
    returns (r: Result<Extracted, ExtractError>)
    ensures r == ExtractSpec(pixels[..], parse)
  {
    var reader := new PixelReader(pixels);
    var markerBytes := reader.GetBytes(|Marker|);
    if markerBytes != Marker {
      return Failure(NotAContainer);
    }
    var headerLenBytes := reader.GetBytes(4);
    var headerLen := U32Value(headerLenBytes);
    if headerLen == 0 || headerLen > MaxHeaderLen {
      return Failure(InvalidHeaderLength);
    }
    var headerBytes := reader.GetBytes(headerLen);
    var metadata := parse(headerBytes);
    if metadata.None? {
      return Failure(MalformedHeader);
    }
    var payloadLenBytes := reader.GetBytes(4);
    var payloadLen := U32Value(payloadLenBytes);
    if payloadLen == 0 {
      return Failure(NoPayload);
    }
    var payload := reader.GetBytes(payloadLen);
    return Success(Extracted(payload, metadata.value.name, metadata.value.mimeType));
  }

  /**
   * The marker is checked first: extraction fails with NotAContainer exactly
   * when the first four bytes read are not "MIDA", whatever follows them.
   */
  lemma ExtractChecksMarkerFirst(p: seq<byte>, parse: seq<byte> -> Option<FileMetadata>)
    ensures ExtractSpec(p, parse) == Failure(NotAContainer) <==> GetBytesSpec(p, 0, 4).0 != Marker
  {
  }

  /** With a valid marker, extraction fails with InvalidHeaderLength exactly when the header length read is 0 or above 10000. */
  lemma ExtractChecksHeaderLength(p: seq<byte>, parse: seq<byte> -> Option<FileMetadata>)
    requires GetBytesSpec(p, 0, 4).0 == Marker
    ensures var headerLen := U32Value(GetBytesSpec(p, GetBytesSpec(p, 0, 4).1, 4).0);
      ExtractSpec(p, parse) == Failure(InvalidHeaderLength) <==> headerLen == 0 || headerLen > MaxHeaderLen
  {
  }

  /** A header that does not parse is rejected with MalformedHeader, before the payload length is read. */
  lemma ExtractChecksHeader(p: seq<byte>, q: nat, headerLen: nat, parse: seq<byte> -> Option<FileMetadata>)
    ensures ExtractFromHeader(p, q, headerLen, parse) == Failure(MalformedHeader)
            <==> parse(GetBytesSpec(p, q, headerLen).0).None?
  {
  }

  /**
   * The payload length is checked last: a length of 0 is rejected with
   * NoPayload; otherwise exactly that many bytes are returned, with the name
   * and MIME type of the parsed header.
   */
  lemma ExtractChecksPayloadLength(p: seq<byte>, q: nat, metadata: FileMetadata)
    ensures var payloadLen := U32Value(GetBytesSpec(p, q, 4).0);
      && (ExtractFromPayloadLen(p, q, metadata) == Failure(NoPayload) <==> payloadLen == 0)
      && (payloadLen != 0 ==>
            && ExtractFromPayloadLen(p, q, metadata).Success?
            && |ExtractFromPayloadLen(p, q, metadata).value.data| == payloadLen
            && ExtractFromPayloadLen(p, q, metadata).value.name == metadata.name
            && ExtractFromPayloadLen(p, q, metadata).value.mimeType == metadata.mimeType)
  {
    var q' := GetBytesSpec(p, q, 4).1;
    GetBytesLength(p, q', U32Value(GetBytesSpec(p, q, 4).0));
  }

  /**
   * A successful extraction returns a non-empty payload of at most 2^32 - 1
   * bytes: a payload length of 0 is rejected and lengths are uint32 values.
   */
  lemma ExtractPayloadBounds(p: seq<byte>, parse: seq<byte> -> Option<FileMetadata>)
    requires ExtractSpec(p, parse).Success?
    ensures 0 < |ExtractSpec(p, parse).value.data| < 0x1_0000_0000
  {
    var q1 := GetBytesSpec(p, 0, |Marker|).1;
    var q2 := GetBytesSpec(p, q1, 4).1;
    var q3 := GetBytesSpec(p, q2, U32Value(GetBytesSpec(p, q1, 4).0)).1;
    var q4 := GetBytesSpec(p, q3, 4).1;
    GetBytesLength(p, q4, U32Value(GetBytesSpec(p, q3, 4).0));
  }

  /** Reading one container field back from an embedded buffer. */
  lemma ReadField(p: seq<byte>, c: seq<byte>, ptr: nat, a: nat, field: seq<byte>)
    requires 8 * |c| <= Capacity(|p|)
    requires ptr <= |p| && ColourBefore(ptr) == 8 * a && a + |field| <= |c|
    requires c[a .. a + |field|] == field
    ensures GetBytesSpec(Embedded(p, c), ptr, |field|).0 == field
    ensures GetBytesSpec(Embedded(p, c), ptr, |field|).1 <= |p|
    ensures ColourBefore(GetBytesSpec(Embedded(p, c), ptr, |field|).1) == 8 * (a + |field|)
  {
    ReadEmbedded(p, c, ptr, a, |field|);
  }

  lemma PayloadOfEmbedded(p: seq<byte>, c: seq<byte>, q: nat, a: nat, payload: seq<byte>, metadata: FileMetadata)
    requires 8 * |c| <= Capacity(|p|) && q <= |p| && ColourBefore(q) == 8 * a
    requires |payload| < 0x1_0000_0000 && a + 4 + |payload| <= |c|
    requires c[a .. a + 4] == U32BE(|payload|) && c[a + 4 .. a + 4 + |payload|] == payload
    ensures ExtractFromPayloadLen(Embedded(p, c), q, metadata)
            == if |payload| == 0 then Failure(NoPayload) else Success(Extracted(payload, metadata.name, metadata.mimeType))
  {
    ReadField(p, c, q, a, U32BE(|payload|));
    U32Exact(|payload|);
    ReadField(p, c, GetBytesSpec(Embedded(p, c), q, 4).1, a + 4, payload);
  }

  lemma HeaderOfEmbedded(p: seq<byte>, c: seq<byte>, q: nat, a: nat, header: seq<byte>, payload: seq<byte>,
                         metadata: FileMetadata, parse: seq<byte> -> Option<FileMetadata>)
    requires 8 * |c| <= Capacity(|p|) && q <= |p| && ColourBefore(q) == 8 * a
    requires parse(header) == Some(metadata)
    requires |payload| < 0x1_0000_0000 && a + |header| + 4 + |payload| <= |c|
    requires c[a .. a + |header|] == header
    requires c[a + |header| .. a + |header| + 4] == U32BE(|payload|)
    requires c[a + |header| + 4 .. a + |header| + 4 + |payload|] == payload
    ensures ExtractFromHeader(Embedded(p, c), q, |header|, parse)
            == if |payload| == 0 then Failure(NoPayload) else Success(Extracted(payload, metadata.name, metadata.mimeType))
  {
    ReadField(p, c, q, a, header);
    PayloadOfEmbedded(p, c, GetBytesSpec(Embedded(p, c), q, |header|).1, a + |header|, payload, metadata);
  }

  /** The header-length read at container byte 4, followed by the header and payload reads. */
  lemma HeaderLenOfEmbedded(p: seq<byte>, c: seq<byte>, q: nat, header: seq<byte>, payload: seq<byte>,
                            metadata: FileMetadata, parse: seq<byte> -> Option<FileMetadata>)
    requires 8 * |c| <= Capacity(|p|) && q <= |p| && ColourBefore(q) == 8 * 4
    requires parse(header) == Some(metadata)
    requires 0 < |header| <= MaxHeaderLen && |payload| < 0x1_0000_0000
    requires |c| == 4 + 4 + |header| + 4 + |payload|
    requires c[4 .. 8] == U32BE(|header|) && c[8 .. 8 + |header|] == header
    requires c[8 + |header| .. 8 + |header| + 4] == U32BE(|payload|)
    requires c[8 + |header| + 4 .. 8 + |header| + 4 + |payload|] == payload
    ensures ExtractFromHeaderLen(Embedded(p, c), q, parse)
            == if |payload| == 0 then Failure(NoPayload) else Success(Extracted(payload, metadata.name, metadata.mimeType))
  {
    var e := Embedded(p, c);
    ReadField(p, c, q, 4, U32BE(|header|));
    var (lenBytes, q') := GetBytesSpec(e, q, 4);
    U32Exact(|header|);
    assert U32Value(lenBytes) == |header|;
    HeaderOfEmbedded(p, c, q', 8, header, payload, metadata, parse);
    assert ExtractFromHeaderLen(e, q, parse) == ExtractFromHeader(e, q', |header|, parse);
  }

  /**
   * Extraction from a buffer carrying, in its first colour bytes, the bits of a
   * byte string c laid out as a container with a parseable header of 1 to
   * 10000 bytes gives back the payload and the metadata, or NoPayload when the
   * payload is empty.
   */
  lemma ExtractFromFields(p: seq<byte>, c: seq<byte>, header: seq<byte>, payload: seq<byte>, metadata: FileMetadata,
                          parse: seq<byte> -> Option<FileMetadata>)
    requires parse(header) == Some(metadata)
    requires 0 < |header| <= MaxHeaderLen && |payload| < 0x1_0000_0000
    requires 8 * |c| <= Capacity(|p|) && |c| == 4 + 4 + |header| + 4 + |payload|
    requires c[0 .. 4] == Marker && c[4 .. 8] == U32BE(|header|) && c[8 .. 8 + |header|] == header
    requires c[8 + |header| .. 8 + |header| + 4] == U32BE(|payload|)
    requires c[8 + |header| + 4 .. 8 + |header| + 4 + |payload|] == payload
    ensures ExtractSpec(Embedded(p, c), parse)
            == if |payload| == 0 then Failure(NoPayload) else Success(Extracted(payload, metadata.name, metadata.mimeType))
  {
    ReadField(p, c, 0, 0, Marker);
    HeaderLenOfEmbedded(p, c, GetBytesSpec(Embedded(p, c), 0, 4).1, header, payload, metadata, parse);
  }

  /** The same for the container HideData builds. */
  lemma ExtractEmbeddedContainer(p: seq<byte>, header: seq<byte>, payload: seq<byte>, metadata: FileMetadata,
                                 parse: seq<byte> -> Option<FileMetadata>)
    requires parse(header) == Some(metadata)
    requires 0 < |header| <= MaxHeaderLen
    requires |payload| < 0x1_0000_0000
    requires Fits(|ContainerLayout(header, payload)|, |p|)
    ensures ExtractSpec(Embedded(p, ContainerLayout(header, payload)), parse)
            == if |payload| == 0 then Failure(NoPayload) else Success(Extracted(payload, metadata.name, metadata.mimeType))
  {
    var c := ContainerLayout(header, payload);
    ContainerFields(header, payload);
    FitsInChannel(|c|, |p|);
    ExtractFromFields(p, c, header, payload, metadata, parse);
  }

  /**
   * Round trip: extracting from a buffer written by HideData with a fitting
   * container returns exactly the payload and the metadata, provided the
   * serialiser and the parser agree on this metadata, its header is 1 to 10000
   * bytes long (embedding does not check this) and the payload is non-empty and
   * shorter than 2^32 bytes (embedding does not check this either).
   */
  lemma HideThenExtract(p: seq<byte>, payload: seq<byte>, metadata: FileMetadata,
                        serialize: FileMetadata -> seq<byte>, parse: seq<byte> -> Option<FileMetadata>)
    requires parse(serialize(metadata)) == Some(metadata)
    requires 0 < |serialize(metadata)| <= MaxHeaderLen
    requires 0 < |payload| < 0x1_0000_0000
    requires Fits(|ContainerLayout(serialize(metadata), payload)|, |p|)
    ensures ExtractSpec(Embedded(p, ContainerLayout(serialize(metadata), payload)), parse)
            == Success(Extracted(payload, metadata.name, metadata.mimeType))
  {
    ExtractEmbeddedContainer(p, serialize(metadata), payload, metadata, parse);
  }

  /**
   * Embedding does not check the header length, but extraction does: a
   * container whose header is longer than 10000 bytes is written without
   * complaint and then always rejected with InvalidHeaderLength.
   */
  lemma OversizedHeaderIsRejected(p: seq<byte>, header: seq<byte>, payload: seq<byte>,
                                  parse: seq<byte> -> Option<FileMetadata>)
    requires MaxHeaderLen < |header| < 0x1_0000_0000
    requires Fits(|ContainerLayout(header, payload)|, |p|)
    ensures ExtractSpec(Embedded(p, ContainerLayout(header, payload)), parse) == Failure(InvalidHeaderLength)
  {
    var c := ContainerLayout(header, payload);
    var e := Embedded(p, c);
    ContainerFields(header, payload);
    FitsInChannel(|c|, |p|);
    ReadField(p, c, 0, 0, Marker);
    ReadField(p, c, GetBytesSpec(e, 0, 4).1, 4, U32BE(|header|));
    U32Exact(|header|);
  }

  /**
   * Embedding does not check that the payload is non-empty, but extraction
   * does: a container with an empty payload and a valid header is written
   * without complaint and then always rejected with NoPayload.
   */
  lemma EmptyPayloadIsRejected(p: seq<byte>, payload: seq<byte>, metadata: FileMetadata,
                               serialize: FileMetadata -> seq<byte>, parse: seq<byte> -> Option<FileMetadata>)
    requires |payload| == 0
    requires parse(serialize(metadata)) == Some(metadata)
    requires 0 < |serialize(metadata)| <= MaxHeaderLen
    requires Fits(|ContainerLayout(serialize(metadata), payload)|, |p|)
    ensures ExtractSpec(Embedded(p, ContainerLayout(serialize(metadata), payload)), parse) == Failure(NoPayload)
  {
    ExtractEmbeddedContainer(p, serialize(metadata), payload, metadata, parse);
  }
}
