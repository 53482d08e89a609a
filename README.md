# Mida: LSB steganography container and AES-GCM envelope, in Dafny

Mida hides a file inside a picture. It first encrypts the file with a
password-derived key (`utils/crypto.ts`). It then embeds the encrypted bytes in
the least significant bits of the picture's colour channels (`utils/stega.ts`).
Recovery runs the two steps backwards.

This project models the parts of those two files that work on bytes:

- **Container framing** (module `Stega`). A container is the marker "MIDA", a
  big-endian uint32 header length, the header (the metadata `{name, type}` as
  UTF-8 JSON), a big-endian uint32 payload length, and the payload.
  `BuildContainer` fills a buffer of the exact size with a moving offset, as
  the source does.
- **Capacity check** (module `Stega`). `Fits` is the source's test written
  exactly. The source divides with JavaScript's real division, so the test is
  `32 * containerLen <= 3 * pixelLen`.
- **Pixel channel** (module `PixelChannel`). Every fourth byte of the RGBA
  buffer is alpha and is skipped. Every other byte carries one container bit,
  most significant bit first, in its least significant bit.
  - The write loop is the method `WriteBits` on an `array<byte>`. It is proved
    to leave exactly the buffer the function `Embedded` describes.
  - The `getBytes` closure with its captured pixel pointer is the class
    `PixelReader`. Its method `GetBytes` runs the same loop as the source.
    It is proved to return what the recursive specification `ReadBits` and
    `Pack` describe.
  - `ReadBits` is in turn characterised against `Stream`, the bit stream the
    colour bytes carry.
- **Extraction** (module `Stega`). `ExtractData` runs the five reads and four
  checks of `extractDataFromImage` in the source's order, against the staged
  specification `ExtractSpec`.
- **Crypto envelope** (module `Crypto`):
  - the password policy `validatePassword`, over UTF-16 code units;
  - the salt ‖ IV ‖ ciphertext layout of `encryptData`;
  - the clamped slicing of `decryptData`;
  - the collapse of every decryption failure into one error.

  PBKDF2 and AES-GCM are the three fields of a `Cipher` value and are not
  opened up.
- **Pipeline** (module `Pipeline`). The composition that the views perform:
  encrypt, hide, extract, decrypt.

Foreign code is taken as function parameters, with nothing known of them beyond the
`requires` of the lemmas that use them:

- `serialize` stands for `TextEncoder().encode(JSON.stringify(·))`.
- `parse` stands for `JSON.parse(TextDecoder().decode(·))`.
- `Cipher` stands for the Web Crypto calls.

Where the round trips hold, they are stated as preconditions on the specific
values involved (`parse(serialize(m)) == Some(m)`, `open(key, iv, seal(key,
iv, data)) == Some(data)`).

Three behaviours of the source are worth stating, since a reader might expect
otherwise:

- **Capacity formula.** `hideDataInImage` compares `finalBuffer.length * 8`
  with `(pixels.length / 4) * 3` using real division (`utils/stega.ts:56-57`).
  `Fits` models that comparison. `FitsExactly` shows it means at most 3 bits
  per 4-byte pixel for every buffer whose length is a multiple of 4, which
  `ImageData` buffers always are.
- **Header length on embed.** `hideDataInImage` never checks
  `0 < headerLen <= 10000`; `extractDataFromImage` rejects a header length
  outside that range (`utils/stega.ts:138`). `OversizedHeaderIsRejected`
  shows that an oversized header is embedded without complaint and then
  always rejected.
- **Empty payload on embed.** `hideDataInImage` likewise accepts an empty
  payload, and `extractDataFromImage` rejects `payloadLen == 0`
  (`utils/stega.ts:147`). `EmptyPayloadIsRejected` shows the same for an
  empty payload.

## Model

| member | source | states |
|---|---|---|
| Bytes.U32BE | utils/stega.ts:45 | defines the four bytes `DataView.setUint32` stores: n reduced modulo 2^32, most significant byte first; always 4 bytes |
| Bytes.U32Value | utils/stega.ts:137 | defines `getUint32(0)` of four bytes read big-endian; always below 2^32 |
| Bytes.U32RoundTrip | utils/stega.ts:137 | `getUint32` of the four bytes `setUint32(n)` stores is n modulo 2^32 |
| Bytes.U32Exact | utils/stega.ts:146 | a length below 2^32 is stored and read back unchanged |
| Bytes.Set | utils/stega.ts:42 | `Uint8Array.set` copies the source at the offset and leaves every other byte unchanged |
| Bytes.SetUint32 | utils/stega.ts:45 | `setUint32` writes the four big-endian bytes of n mod 2^32 at the offset, nothing else changes |
| Bytes.ShiftRightBit | utils/stega.ts:69-70 | `(byte >> (7 - k)) & 1` is bit k of the byte counted from the most significant end |
| Bytes.ShiftLeftBit | utils/stega.ts:118-119 | `bit << (7 - k)` is the mask of bit k from the most significant end when the bit is 1, and 0 otherwise |
| PixelChannel.IsAlpha | utils/stega.ts:66 | defines the alpha test `(i + 1) % 4 === 0` that both loops use to skip a byte (also line 110) |
| PixelChannel.ColourIndex | utils/stega.ts:66 | the index it gives is a colour byte (not alpha) and has exactly t colour bytes before it |
| PixelChannel.ColourIndexBelow | utils/stega.ts:56-57 | the t-th colour byte lies inside a buffer of n bytes iff t is below the buffer's capacity (both directions) |
| PixelChannel.SetLsb | utils/stega.ts:72 | defines `pixels[i] & 0xFE` OR-ed with the bit; its meaning is stated by `SetLsbSpec` |
| PixelChannel.ContainerBit | utils/stega.ts:68-70 | defines container bit k: bit k % 8 of byte k / 8, counted from the most significant end; `ShiftRightBit` shows it is the `>> (7 - k % 8) & 1` of the source |
| PixelChannel.SetLsbSpec | utils/stega.ts:72 | `(x & 0xFE) OR bit` has LSB `bit` and the same seven high bits as x |
| PixelChannel.Embedded | utils/stega.ts:61-74 | defines the buffer the write loop leaves: colour byte number k below the container's bit count gets container bit k in its LSB, every other byte is kept; same length as the input |
| PixelChannel.EmbeddedKeepsAlpha | utils/stega.ts:66 | the writer never changes an alpha byte |
| PixelChannel.EmbeddedKeepsHighBits | utils/stega.ts:72 | the writer changes no bit other than the LSB of any byte |
| PixelChannel.EmbeddedCarriesBit | utils/stega.ts:68-72 | the colour byte numbered k (k below the container's bit count) carries container bit k, MSB first |
| PixelChannel.EmbeddedKeepsTail | utils/stega.ts:65 | the loop stops after the last container bit: later bytes are unchanged |
| PixelChannel.WriteBits | utils/stega.ts:61-74 | the in-place loop leaves exactly `Embedded(old pixels, container)` |
| PixelChannel.EmbeddedStream | utils/stega.ts:61-74 | the colour-byte bit stream of an embedded buffer starts with the container's bits in order |
| PixelChannel.ReadBits | utils/stega.ts:108-123 | defines the bits the `getBytes` loop collects from a pointer (skipping alpha, stopping at n bits or at the buffer's end) and where it leaves the pointer; characterised by `ReadBitsReadsStream` |
| PixelChannel.ReadBitsReadsStream | utils/stega.ts:108-123 | reading n bits from a pointer returns the next min(n, bits left) bits of the colour stream and stops just after the last colour byte read |
| PixelChannel.ReadBitsConsecutive | utils/stega.ts:102-125 | reading n + m bits equals reading n bits, then m bits from where the first read stopped |
| PixelChannel.ReadBitsStopsEarly | utils/stega.ts:109 | a read returning fewer bits than asked has run the pointer to the end of the buffer |
| PixelChannel.Pack | utils/stega.ts:104-119 | defines the `count`-byte result of `getBytes`: the zero-filled array with each read bit OR-ed in MSB first; always count bytes, built up bit by bit as `PackSnoc` states |
| PixelChannel.PackSnoc | utils/stega.ts:116-119 | OR-ing `b << (7 - k%8)` into `result[k/8]` turns the packing of k bits into the packing of those bits followed by b |
| PixelChannel.OrBitIntoResult | utils/stega.ts:115-119 | OR-ing `pixel & 1` into the result byte extends the packed result by that pixel's LSB |
| PixelChannel.PackContainerBits | utils/stega.ts:68-70 | packing the MSB-first bits of container bytes a..a+n gives those bytes back |
| PixelChannel.GetBytesSpec | utils/stega.ts:103-125 | defines one `getBytes(count)` call: the collected bits packed MSB-first into a zero-filled array of count bytes, and the new pointer |
| PixelChannel.GetBytesLength | utils/stega.ts:104 | `getBytes(count)` always returns exactly count bytes |
| PixelChannel.GetBytesPadsWithZeros | utils/stega.ts:104-109 | a short read is not an error: bytes past the bits left are 0 and the pointer ends at the buffer's end |
| PixelChannel.GetBytesConsecutive | utils/stega.ts:102-103 | consecutive `getBytes` calls read consecutive bit ranges of the stream, continuing at the shared pointer |
| PixelChannel.ReadEmbedded | utils/stega.ts:108-123 | on a buffer carrying a fitting container, reading n bytes at the colour byte of bit 8a returns container bytes a..a+n and advances by 8n colour bytes |
| PixelChannel.PixelReader.constructor | utils/stega.ts:102 | the reader starts at pixel pointer 0 over the given buffer |
| PixelChannel.PixelReader.GetBytes | utils/stega.ts:103-125 | the loop returns the packed bits and leaves the pointer where the specification `GetBytesSpec` says, from the old pointer |
| Stega.ContainerLayout | utils/stega.ts:36-54 | defines the container as `Marker` (the bytes 4D 49 44 41 that `encoder.encode(MARKER)` gives at line 33) ‖ u32(headerLen) ‖ header ‖ u32(payloadLen) ‖ payload; its offsets are stated by `ContainerFields` |
| Stega.ContainerFields | utils/stega.ts:31-54 | the container is 12 + headerLen + payloadLen bytes, with marker, lengths, header and payload at their offsets |
| Stega.BuildContainer | utils/stega.ts:36-54 | filling the exact-size buffer with a moving offset yields marker ‖ u32(headerLen) ‖ header ‖ u32(payloadLen) ‖ payload |
| Stega.Fits | utils/stega.ts:56-57 | defines the capacity test `containerLen * 8 <= (pixelLen / 4) * 3` over real division, cleared of fractions |
| Stega.FitsInChannel | utils/stega.ts:56-57 | a container that passes the capacity check has no more bits than the buffer has colour bytes |
| Stega.FitsExactly | utils/stega.ts:56-57 | for an RGBA buffer, a container passes iff its bits are at most 3 per pixel: exactly-full succeeds, one byte more fails |
| Stega.EmbedThenRead | utils/stega.ts:56-125 | a container that passes the capacity check is written into the buffer and read back whole: `getBytes(len)` from pointer 0 on the written pixels returns exactly the container |
| Stega.HideData | utils/stega.ts:31-74 | succeeds iff the container fits; on failure ImageTooSmall and no pixel changed; on success the buffer holds the container bits |
| Stega.ExtractSpec | utils/stega.ts:127-133 | defines extraction's first step: read 4 bytes from pointer 0, fail with NotAContainer unless they are "MIDA", otherwise continue with `ExtractFromHeaderLen` |
| Stega.ExtractFromHeaderLen | utils/stega.ts:135-138 | defines the second step: read the uint32 header length, fail with InvalidHeaderLength if it is 0 or above 10000 |
| Stega.ExtractFromHeader | utils/stega.ts:140-142 | defines the third step: read headerLen bytes and parse them, failing with MalformedHeader when parsing fails |
| Stega.ExtractFromPayloadLen | utils/stega.ts:144-156 | defines the last steps: read the uint32 payload length, fail with NoPayload if it is 0, otherwise read that many bytes and return them with the header's name and type |
| Stega.ExtractData | utils/stega.ts:127-156 | the reads and checks of extraction, in order, give exactly `ExtractSpec` of the buffer |
| Stega.ExtractChecksMarkerFirst | utils/stega.ts:129-133 | extraction fails with NotAContainer iff the first four bytes are not "MIDA" (both directions) |
| Stega.ExtractChecksHeaderLength | utils/stega.ts:136-138 | after a valid marker, InvalidHeaderLength iff the header length read is 0 or above 10000 |
| Stega.ExtractChecksHeader | utils/stega.ts:141-142 | MalformedHeader iff the header bytes read do not parse |
| Stega.ExtractChecksPayloadLength | utils/stega.ts:145-156 | NoPayload iff payload length 0; otherwise success with exactly that many bytes and the header's name and type |
| Stega.ExtractPayloadBounds | utils/stega.ts:144-150 | every successful extraction returns 1 to 2^32 - 1 payload bytes |
| Stega.ReadField | utils/stega.ts:129-150 | each container field read back from an embedded buffer is that field, and the next read starts at the next field |
| Stega.PayloadOfEmbedded | utils/stega.ts:144-156 | the payload-length and payload reads of an embedded container give the payload, or NoPayload when it is empty |
| Stega.HeaderLenOfEmbedded | utils/stega.ts:135-156 | reading the header length of an embedded container at byte 4, then its header and payload, gives the payload with the header's metadata, or NoPayload |
| Stega.HeaderOfEmbedded | utils/stega.ts:140-156 | reading a parseable embedded header and then the payload gives the payload with the header's metadata, or NoPayload |
| Stega.ExtractFromFields | utils/stega.ts:127-156 | a buffer whose colour bits start with a marker, a matching header length, a parseable 1..10000-byte header, a payload length and the payload extracts to that payload and metadata, or NoPayload |
| Stega.ExtractEmbeddedContainer | utils/stega.ts:127-156 | extraction of an embedded container with a 1..10000-byte parseable header returns payload and metadata, or NoPayload for an empty payload |
| Stega.HideThenExtract | utils/stega.ts:31-156 | round trip: extracting what embedding wrote returns exactly the payload, name and type |
| Stega.OversizedHeaderIsRejected | utils/stega.ts:138 | embedding accepts a header of more than 10000 and fewer than 2^32 bytes, but extraction of it always fails with InvalidHeaderLength (longer headers have their length stored modulo 2^32) |
| Stega.EmptyPayloadIsRejected | utils/stega.ts:147 | embedding accepts an empty payload, but extraction of it always fails with NoPayload |
| Crypto.ValidatePassword | utils/crypto.ts:66-73 | defines `validatePassword` over UTF-16 code units: at least 8 code units and an upper-case letter, a lower-case letter and a digit; characterised for BMP strings by `ValidatePasswordOfBmp` |
| Crypto.HasUpper | utils/crypto.ts:69 | defines `/[A-Z]/.test`: some code unit is in A..Z |
| Crypto.HasLower | utils/crypto.ts:70 | defines `/[a-z]/.test`: some code unit is in a..z |
| Crypto.HasDigit | utils/crypto.ts:71 | defines `/\d/.test` (no `u` flag): some code unit is in 0..9 |
| Crypto.Utf16 | utils/crypto.ts:68 | a string has between 1 and 2 UTF-16 code units per character |
| Crypto.Utf16Bmp | utils/crypto.ts:68 | characters below U+10000 take one code unit each, with the same value |
| Crypto.HasUpperOfBmp | utils/crypto.ts:69 | `/[A-Z]/` matches a BMP string iff one of its characters is in A..Z (both directions) |
| Crypto.HasLowerOfBmp | utils/crypto.ts:70 | `/[a-z]/` matches a BMP string iff one of its characters is in a..z (both directions) |
| Crypto.HasDigitOfBmp | utils/crypto.ts:71 | `/\d/` matches a BMP string iff one of its characters is in 0..9 (both directions) |
| Crypto.ValidatePasswordOfBmp | utils/crypto.ts:66-73 | a BMP password is accepted iff it has at least 8 characters, an ASCII capital, an ASCII small letter and an ASCII digit (both directions) |
| Crypto.ValidatePasswordExtends | utils/crypto.ts:66-73 | appending anything to an accepted password keeps it accepted |
| Crypto.AcceptsAbcd1234 | utils/crypto.ts:66-73 | "Abcd1234" passes the policy |
| Crypto.RejectsNoUpper | utils/crypto.ts:69 | "abcd1234" (no upper-case letter) fails the policy |
| Crypto.RejectsNoLower | utils/crypto.ts:70 | "ABCD1234" (no lower-case letter) fails the policy |
| Crypto.RejectsNoDigit | utils/crypto.ts:71 | "Abcdefgh" (no digit) fails the policy |
| Crypto.RejectsShort | utils/crypto.ts:68 | "Abc123" (6 code units) fails the policy |
| Crypto.ValidatePasswordAsciiOnly | utils/crypto.ts:69 | a non-ASCII capital (É) does not count as upper-case |
| Crypto.ValidatePasswordCountsCodeUnits | utils/crypto.ts:68 | length counts code units: six characters with three astral ones pass the 8-unit minimum |
| Crypto.EncryptedLayout | utils/crypto.ts:40-43 | defines `encryptData`'s output as salt ‖ iv ‖ sealed bytes; its offsets are stated by `EncryptedLayoutFields` |
| Crypto.EncryptedLayoutFields | utils/crypto.ts:40-43 | the output is 28 + sealed bytes long: salt at [0,16), IV at [16,28), ciphertext from 28 |
| Crypto.EncryptData | utils/crypto.ts:29-45 | fails iff key derivation fails; otherwise returns salt ‖ iv ‖ seal(key, iv, data) |
| Crypto.Slice | utils/crypto.ts:49-51 | `slice` clamps both ends to the data and never fails; its length is the clamped range |
| Crypto.SplitEncrypted | utils/crypto.ts:49-51 | defines `decryptData`'s three clamped cuts `slice(0, 16)`, `slice(16, 28)`, `slice(28)`; shown inverse to `EncryptedLayout` by `SplitEncryptedInverse` |
| Crypto.SplitEncryptedInverse | utils/crypto.ts:49-51 | cutting encryptData's output at 16 and 28 gives back salt, IV and ciphertext |
| Crypto.SplitEncryptedConcat | utils/crypto.ts:49-51 | the three cuts put together are the input, for inputs of any length |
| Crypto.DecryptData | utils/crypto.ts:47-64 | fails iff key derivation or AES-GCM opening fails, always with the one WrongPasswordOrCorrupted error; on success returns what opening returned |
| Crypto.DecryptInvertsEncrypt | utils/crypto.ts:29-64 | decrypting encryptData's output with the same password returns the data |
| Crypto.DecryptFailuresIndistinguishable | utils/crypto.ts:61-62 | any two failing decryptions report the same error: wrong password and corruption look alike |
| Pipeline.EncryptHideExtractDecrypt | components/EncryptionView.tsx:47-54 | encrypt and hide as the encryption view does here, then extract and decrypt as components/DecryptionView.tsx does at lines 34-38, with the same password: the result is the secret with its name and type |

## Left out

- Image decoding and encoding are not part of this model: `FileReader`,
  `Image`, the canvas, `getImageData`/`putImageData` and `toDataURL`. The model
  starts from the decoded RGBA buffer. The pipeline lemma relies on the PNG round
  trip returning the same pixels. It does not model premultiplied-alpha or
  colour-space changes by the browser.
- The pixel buffer is a plain `array<byte>` rather than a
  `Uint8ClampedArray`. Every value written is already a byte, so clamping
  never applies.
- PBKDF2 (100,000 iterations of HMAC-SHA-256), AES-256-GCM and
  `crypto.getRandomValues` are not modelled. They are the `Cipher` parameter,
  and the salt and IV are arguments of `EncryptData`. Key-import failures are
  folded into `deriveKey` returning None.
- `JSON.stringify`, `JSON.parse`, `TextEncoder` and `TextDecoder` are the
  `serialize`/`parse` parameters. `parse` returning None stands for a throw.
  Two cases are not captured:
  - a header that parses to a JSON value other than an object with string
    fields;
  - `FileMetadata` holds Dafny strings, which cannot contain lone
    surrogates. A name or MIME type with a lone surrogate (which
    `JSON.stringify` escapes and `JSON.parse` restores) has no counterpart in
    the model.

  The round trip is a precondition per metadata value.
- The marker check decodes four bytes with `TextDecoder` and compares the
  result with "MIDA". The model compares the bytes with 4D 49 44 41 instead.
  The two agree: four bytes decode to exactly "MIDA" only when they are those
  bytes, since a UTF-8 BOM would leave too few bytes.
- Stega.HideThenExtract: requires a header of 1 to 10000 bytes and a
  payload of 1 to 2^32 - 1 bytes. Embedding does not check either (see
  `OversizedHeaderIsRejected`, `EmptyPayloadIsRejected`). Lengths of 2^32 or
  more are stored modulo 2^32 (`U32BE`), and no round trip holds for them.
- The error messages are not modelled (Arabic strings, the `err.message ||`
  fallback and the `reject` of a missing 2D context); only which error kind
  is raised is. The same goes for the views' handling of errors.
- The views themselves (`EncryptionView`, `DecryptionView`, routing,
  settings, ads) are not part of this model. So is the decryption view's own
  length-only password check.
