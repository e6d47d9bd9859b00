# RIFF/WAVE codec and the Sound asset, in Dafny

This project models the audio asset of the Watson C++ SDK (`wdc/utils/Sound.cpp`):
the decoder `Sound::LoadWave`, which checks the 12-byte `RIFF`…`WAVE` form
header and walks the chunks after it with a cursor, taking sample rate,
channel count and bits per sample from a `fmt ` chunk and the payload from
a `data` chunk; the encoder `Sound::SaveWave`, which writes a fixed 44-byte
header and the payload; and the `Sound` object whose four fields
(`m_Rate`, `m_Channels`, `m_Bits`, `m_WaveData`) those operations read and
write.

Layout of the project:

- `Bytes.dfy` (module `Bytes`): bytes, the C `int`, and the little-endian
  16- and 32-bit fields; the C conversions to WORD, DWORD and `int` are
  explicit reductions modulo 2^16 and 2^32.
- `Riff.dfy` (module `Riff`): the packed records `IFF_FORM_CHUNK`,
  `IFF_CHUNK` and `WAV_PCM` as datatypes with a reader and a writer each,
  the `IDTAG` macro and the `CHUNKID` cast.
- `Wave.dfy` (module `Wave`): `LoadWave` as a method with the source's
  cursor loop, proved equal to the function `LoadWaveSpec` (the walk
  `Walk`, one loop pass `ChunkStep`); `SaveWave` as a function that
  concatenates the records.
- `WaveProperties.dfy` (module `WaveProperties`): what the codec promises,
  including a reference reading of a well-framed chunk stream (`Stream`,
  `Fold`) against which the decoder is proved, the encoder's byte layout
  and the round trip.
- `Sound.dfy` (module `SoundAsset`): the class `Sound` with the four fields
  and the methods that update them in place.

Choices made where the source is silent or undefined:

- The host is little-endian, so `CHUNKID("RIFF")` (a cast of the string's
  first four bytes to a 32-bit word) and `IDTAG('R','I','F','F')` are the
  same number; `Riff.IdTag` proves it.
- The source reads past the end of the buffer in four places without a
  check. The model fails there instead (`ChunkStep` returns `Truncated`,
  `LoadWave` returns false): a buffer shorter than the 12-byte form header;
  a chunk header that crosses the end; a `fmt ` chunk with fewer than 16
  bytes after its header (the source reads the 16-byte record whatever the
  chunk's declared length, so only the buffer end is checked, as the
  source's read would go past it); a `data` chunk whose effective length
  is larger than the bytes after its header. As in the source, what
  earlier chunks wrote into the reference parameters stays written.
- A chunk whose declared length runs past the end of the buffer is read by
  the source without any out-of-bounds access when it is neither `fmt `
  nor `data`: the cursor jumps past the end and the call returns true. The
  model does the same (`OverlongChunkEndsWalk`).
- `(nRate * nBits * nChannels) / 8` overflows a C `int` for large inputs,
  which C leaves undefined; the model computes the product modulo 2^32 in
  two's complement, as the hardware does, then divides truncating toward
  zero (`AverageDataRate`). `AverageDataRateExact` gives the plain value
  when there is no overflow.
- The decoder keeps a chunk's length in an `int` (wdc/utils/Sound.cpp:188-190):
  a negative declared length is replaced by the number of bytes after the
  header converted to `int`, which is that number below 2^31 and negative
  from 2^31 to 2^32 − 1 (`EffectiveLength`). When the length is still
  negative, the source either throws from `resize` (`data`) or moves the
  cursor backwards (any other id); the model fails the call there
  (`ChunkStep` returns `LengthOverflow`, `LoadWave` returns false). See
  "## Findings".
- `data.length = a_WaveData.size()` converts the size to `int`, so a payload
  of 2^31 to 2^32 − 1 bytes gets a negative length (and one of exactly
  2^32 bytes gets length 0). The decoder reads that as
  "the rest of the buffer", and the rest is then too long for its `int`. The
  round trip therefore holds only for payloads shorter than 2^31 bytes
  (`RoundTrip`), and longer ones up to 2^32 − 1 bytes do not load
  (`LargePayloadRejected`).

Where the code departs from what one might expect of it, the model follows
the code:

- One might expect `Load` to replace all four fields at once or none.
  `Sound::Load` passes the fields themselves to `LoadWave`
  (wdc/utils/Sound.cpp:80), so a form with a `fmt ` chunk and no `data`
  chunk updates the three scalars and keeps the old payload
  (`FmtWithoutDataKeepsPayload`, `SoundAsset.Sound.Load`).
- One might expect positive scalars to be required before encoding;
  `SaveWave` has no such check and writes whatever it is given, truncating channels and bits
  to 16 bits. The model has no precondition on it either.
- One might expect the sentinel state and a loaded state to be the only two
  states a Sound can be in; `Deserialize` and `InitializeSound` accept any
  values, so the model does not impose that invariant.

## Model

| member | source | states |
|---|---|---|
| `Bytes.ToWord` | wdc/utils/Sound.cpp:233 | the value stored in a WORD field is the residue of the `int` modulo 2^16, and equals it when it already fits |
| `Bytes.ToDword` | wdc/utils/Sound.cpp:223-224 | the value stored in a DWORD field is the residue modulo 2^32, and equals it when it already fits |
| `Bytes.ToInt32` | wdc/utils/Sound.cpp:241 | conversion to `int` keeps the value modulo 2^32, is the identity on the `int` range, and makes sizes from 2^31 to 2^32 − 1 negative |
| `Bytes.I32` | wdc/utils/Sound.cpp:134-148 | a signed 32-bit field is the unsigned bit pattern read in two's complement: congruent to it modulo 2^32, negative exactly when the top bit is set |
| `Bytes.LeU16` | wdc/utils/Sound.cpp:244-247 | writing a 16-bit field gives two bytes that read back as the same value |
| `Bytes.LeU32` | wdc/utils/Sound.cpp:244-247 | writing a 32-bit field gives four bytes that read back as the same value |
| `Bytes.LeI32` | wdc/utils/Sound.cpp:244-247 | writing an `int` field gives four bytes that read back as the same `int` |
| `Bytes.LeU16OfU16` | wdc/utils/Sound.cpp:140-148 | two bytes are determined by the 16-bit value they hold |
| `Bytes.LeU32OfU32` | wdc/utils/Sound.cpp:127-138 | four bytes are determined by the 32-bit value they hold |
| `Bytes.LeI32OfI32` | wdc/utils/Sound.cpp:134-138 | four bytes are determined by the `int` they hold, read in two's complement |
| `Bytes.U32Injective` | wdc/utils/Sound.cpp:177 | two 4-byte words are equal exactly when their bytes are equal, so comparing ids as words compares their characters |
| `Riff.IdTag` | wdc/utils/Sound.cpp:168-169 | `IDTAG(a,b,c,d)` is the word the bytes `a b c d` hold on a little-endian host, i.e. what `CHUNKID` reads |
| `Riff.ChunkId` | wdc/utils/Sound.cpp:168 | `CHUNKID(s)` is the little-endian word of the first four bytes of `s`, below 2^32 |
| `Riff.ChunkIdMatches` | wdc/utils/Sound.cpp:177 | a word read from the buffer equals `CHUNKID(tag)` exactly when the four bytes spell the tag |
| `Riff.ChunkIdBytes` | wdc/utils/Sound.cpp:222-240 | writing `CHUNKID(tag)` as a word writes the tag's four characters |
| `Riff.FormChunkBytes` | wdc/utils/Sound.cpp:127-132 | an `IFF_FORM_CHUNK` is written in 12 bytes that read back as the same record |
| `Riff.ChunkHeaderBytes` | wdc/utils/Sound.cpp:134-138 | an `IFF_CHUNK` is written in 8 bytes that read back as the same id and signed length |
| `Riff.PcmBytes` | wdc/utils/Sound.cpp:140-148 | a `WAV_PCM` record is written in 16 bytes that read back as the same six fields |
| `Riff.ParseFormChunk` | wdc/utils/Sound.cpp:176-177 | the `IFF_FORM_CHUNK` read from 12 bytes has each word within 32 bits |
| `Riff.ParseChunkHeader` | wdc/utils/Sound.cpp:188-192 | the `IFF_CHUNK` read from 8 bytes has its id within 32 bits |
| `Riff.ParsePcm` | wdc/utils/Sound.cpp:196-200 | the `WAV_PCM` read from 16 bytes has each WORD field within 16 bits |
| `Riff.FormChunkOfBytes` | wdc/utils/Sound.cpp:176-177 | writing the form record read from 12 bytes gives back those bytes, so the read loses nothing |
| `Riff.ChunkHeaderOfBytes` | wdc/utils/Sound.cpp:188-192 | writing the chunk header read from 8 bytes gives back those bytes |
| `Riff.PcmOfBytes` | wdc/utils/Sound.cpp:196-200 | writing the `WAV_PCM` record read from 16 bytes gives back those bytes |
| `Wave.ChunkStep` | wdc/utils/Sound.cpp:186-213 | every pass of the chunk loop that does not fail moves the cursor at least past the 8-byte chunk header, so the loop ends; the cursor never moves backwards, because a length still negative once narrowed to `int` fails the pass |
| `Wave.EffectiveLength` | wdc/utils/Sound.cpp:188-190 | a non-negative declared length is used as is; a negative one becomes the bytes remaining after the header as an `int`: exactly that count below 2^31, that count minus 2^32 from 2^31 to 2^32 − 1, congruent to it modulo 2^32 in every case |
| `Wave.LoadWave` | wdc/utils/Sound.cpp:171-217 | the cursor loop, with the rest-of-buffer length narrowed to `int`, returns exactly the success flag and the reference-parameter values of the decoder specification `LoadWaveSpec` |
| `Wave.TruncDiv8` | wdc/utils/Sound.cpp:235 | C division by 8: the quotient times 8 lies between zero and the dividend, within 8 of it, for either sign |
| `Wave.AverageDataRate` | wdc/utils/Sound.cpp:235 | the stored average byte rate, an eighth of an `int`, lies between −2^28 and 2^28 − 1; `AverageDataRateExact` gives its value when the product does not overflow |
| `Wave.EncodedPcm` | wdc/utils/Sound.cpp:231-237 | the record the encoder writes has format tag 1 and alignment 2, the rate unchanged, channels and bits reduced modulo 2^16 and the average byte rate of `AverageDataRate` |
| `Wave.SaveWave` | wdc/utils/Sound.cpp:219-252 | the encoder's output is 44 bytes longer than the payload |
| `WaveProperties.HeaderCheck` | wdc/utils/Sound.cpp:176-184 | the decoder goes on to the chunks at offset 12 exactly when bytes 0-3 are "RIFF" and bytes 8-11 are "WAVE", and otherwise fails with every reference parameter unchanged |
| `WaveProperties.BadHeaderRejected` | wdc/utils/Sound.cpp:176-181 | a buffer without the RIFF/WAVE form header is rejected with no reference parameter assigned |
| `WaveProperties.FormLengthIgnored` | wdc/utils/Sound.cpp:176-177 | two buffers that differ only in the form-length field decode identically |
| `WaveProperties.ChunkStepWindow` | wdc/utils/Sound.cpp:186-213 | one pass of the loop at a cursor reads only the bytes from the cursor on: it is the pass at the start of those bytes, moved along by the cursor |
| `WaveProperties.WalkWindow` | wdc/utils/Sound.cpp:183-214 | the chunk walk from a cursor equals the walk over the bytes from the cursor to the end, so no byte before the cursor is ever read |
| `WaveProperties.FmtChunkStep` | wdc/utils/Sound.cpp:188-201 | a `fmt ` chunk sets rate to the int32 at body offset 4, channels to the uint16 at offset 2 and bits to the uint16 at offset 14, keeps the payload, and the cursor moves on by 8 plus the effective length; a negative effective length fails the walk |
| `WaveProperties.DataChunkStep` | wdc/utils/Sound.cpp:188-207 | a `data` chunk replaces the payload with exactly the effective-length bytes after its header and changes nothing else; a negative effective length fails the walk |
| `WaveProperties.OtherChunkSkipped` | wdc/utils/Sound.cpp:188-213 | any other chunk id changes no output and the cursor moves on by 8 plus the effective length; a negative effective length fails the walk |
| `WaveProperties.NegativeLengthSpansRest` | wdc/utils/Sound.cpp:188-190 | a `data` chunk with a negative declared length and fewer than 2^31 bytes after its header takes all of them as the payload and the walk ends successfully |
| `WaveProperties.NegativeLengthIsLast` | wdc/utils/Sound.cpp:188-190 | a chunk with a negative declared length and fewer than 2^31 bytes after its header gets that count as its length, so the cursor lands exactly on the buffer end and the walk succeeds with that chunk's effect |
| `WaveProperties.NegativeLengthOverflows` | wdc/utils/Sound.cpp:188-190 | a chunk of any id with a negative declared length and 2^31 to 2^32 − 1 bytes after its header fails the pass and the walk, keeping what earlier chunks wrote |
| `WaveProperties.SourceCursorMovesBack` | wdc/utils/Sound.cpp:188-213 | as written, that chunk moves the cursor back before its own body, and back to or before the chunk itself unless the rest is within 8 bytes of 2^32 |
| `WaveProperties.OverlongChunkEndsWalk` | wdc/utils/Sound.cpp:186-214 | an unrecognised chunk whose length reaches the buffer end ends the loop, and the call succeeds |
| `WaveProperties.FirstChunkStep` | wdc/utils/Sound.cpp:186-213 | a chunk laid out as id, length, body is read by one loop pass as exactly that chunk, whatever follows it |
| `WaveProperties.WalkStream` | wdc/utils/Sound.cpp:183-216 | the chunk loop run over a well-framed chunk stream (every body shorter than 2^31 bytes, every `fmt ` body at least 16) succeeds and applies each chunk's effect in order |
| `WaveProperties.LoadStream` | wdc/utils/Sound.cpp:171-216 | a RIFF/WAVE header followed by a well-framed stream decodes successfully to the chunks' effects in order, even with no `fmt ` or `data` chunk |
| `WaveProperties.FoldKeepsPayload` | wdc/utils/Sound.cpp:203-210 | chunks without a `data` chunk among them leave the payload as it was |
| `WaveProperties.FoldSkipsOtherChunk` | wdc/utils/Sound.cpp:209-210 | removing an unrecognised chunk from anywhere in the stream does not change the result |
| `WaveProperties.OtherChunkBetween` | wdc/utils/Sound.cpp:192-213 | an unrecognised chunk between `fmt ` and `data` leaves the decoded rate, channels, bits and payload as they are without it |
| `WaveProperties.FmtWithoutDataKeepsPayload` | wdc/utils/Sound.cpp:78-81 | a form with a `fmt ` chunk and no `data` chunk loads successfully and keeps the previous payload |
| `WaveProperties.FormChunkLayout` | wdc/utils/Sound.cpp:221-225 | the written form header spells "RIFF", then the length, then "WAVE" |
| `WaveProperties.ChunkHeaderLayout` | wdc/utils/Sound.cpp:227-241 | a written chunk header is the id's four characters followed by the length |
| `WaveProperties.SaveWaveParts` | wdc/utils/Sound.cpp:243-250 | the encoder's output is the form header, the `fmt ` header with length 16, the PCM record, the `data` header with the payload length, and the payload, in that order |
| `WaveProperties.SaveWaveSegments` | wdc/utils/Sound.cpp:243-250 | the encoder's output cut at offsets 12, 20, 36 and 44 is the form header, the `fmt ` header with length 16, the PCM record, the `data` header with the payload length, and the payload |
| `WaveProperties.SaveWaveLayout` | wdc/utils/Sound.cpp:219-252 | every field of the 44-byte header at its offset: "RIFF", form length 36 + payload length mod 2^32, "WAVE", "fmt ", 16, format tag 1, channels mod 2^16, rate, average byte rate, alignment 2, bits mod 2^16, "data", the payload length as `int`, then the payload verbatim |
| `WaveProperties.SaveWaveExample` | wdc/utils/Sound.cpp:221-251 | rate 16000, one channel, 16 bits and 100 payload bytes give 144 bytes with average byte rate 32000 and data length 100 |
| `WaveProperties.AverageDataRateExact` | wdc/utils/Sound.cpp:235 | without overflow the average byte rate is rate × bits × channels / 8 truncated toward zero |
| `WaveProperties.SaveWaveStream` | wdc/utils/Sound.cpp:219-252 | the encoder writes a RIFF/WAVE form header followed by the stream of one `fmt ` chunk and one `data` chunk, which is well-framed exactly when the payload is shorter than 2^31 bytes |
| `WaveProperties.SaveWaveDecodes` | wdc/utils/Sound.cpp:171-252 | for a payload shorter than 2^31 bytes, decoding the encoder's output succeeds with the rate and payload exactly and channels and bits reduced modulo 2^16, whatever the reference parameters held |
| `WaveProperties.RoundTrip` | wdc/utils/Sound.cpp:171-252 | with channels and bits in 16 bits and the payload shorter than 2^31 bytes, decoding the encoder's output yields exactly the encoded rate, channels, bits and payload |
| `WaveProperties.OverlongChunkStep` | wdc/utils/Sound.cpp:188-190 | a chunk with a body of 2^31 to 2^32 − 1 bytes, its length written as an `int`, is read back by one pass as a length overflow, whatever its id |
| `WaveProperties.LargePayloadRejected` | wdc/utils/Sound.cpp:171-252 | the encoder's output for a payload of 2^31 to 2^32 − 1 bytes fails to decode, after the `fmt ` chunk has set rate, channels and bits |
| `SoundAsset.RateOnlyDocument` | wdc/utils/Sound.cpp:45-55 | a document with only the rate key changes the rate and leaves channels, bits and payload as they were |
| `SoundAsset.FullDocument` | wdc/utils/Sound.cpp:45-55 | a document with all four keys sets every field regardless of the previous state |
| `SoundAsset.DeserializeIdempotent` | wdc/utils/Sound.cpp:45-55 | reading the same document twice leaves the same state as reading it once |
| `SoundAsset.Sound.constructor` | wdc/utils/Sound.cpp:28-29 | a new Sound has rate, channels and bits -1 and an empty payload |
| `SoundAsset.Sound.FromWave` | wdc/utils/Sound.cpp:31-35 | constructing from a buffer succeeds exactly when loading it into an uninitialised Sound succeeds, and the new Sound then holds what the decoder produced |
| `SoundAsset.Sound.Deserialize` | wdc/utils/Sound.cpp:45-55 | each field whose key is present in the document is overwritten, every other field keeps its value |
| `SoundAsset.Sound.InitializeSound` | wdc/utils/Sound.cpp:60-68 | all four fields are replaced by the arguments |
| `SoundAsset.Sound.Release` | wdc/utils/Sound.cpp:70-76 | the payload is cleared and rate, channels and bits are -1 |
| `SoundAsset.Sound.Load` | wdc/utils/Sound.cpp:78-81 | the fields end as the decoder leaves its reference parameters when started from the old fields, and the result is the decoder's |
| `SoundAsset.Sound.Save` | wdc/utils/Sound.cpp:83-86 | saving always succeeds and yields the encoder's output for the current fields; when channels and bits fit in 16 bits and the payload is shorter than 2^31 bytes, loading that output restores exactly the current fields, and a payload of 2^31 to 2^32 − 1 bytes gives output that does not load |

## Left out

- `LoadFromFile` and `SaveToFile` (wdc/utils/Sound.cpp:88-116): file I/O through streams and the exception caught around the write.
- `Log::Error` calls (wdc/utils/Sound.cpp:111, 179): diagnostics only.
- `WatsonException`: the throwing constructor is modelled as `Sound.FromWave`, which returns `None` where the source throws.
- `Serialize` and the JSON value API (wdc/utils/Sound.cpp:37-43): a foreign library. `Deserialize` is modelled on a record of optional fields whose values are already an `int` or bytes; the JSON conversions `asInt` and `asString` are not modelled.
- `WAV_CUE` and `WAV_CUE_LABEL` (wdc/utils/Sound.cpp:150-165): declared but never used.
- `RTTI_IMPL` (wdc/utils/Sound.cpp:26): framework type registration.
- Even-byte padding after odd-length chunks: the source neither writes nor skips it, and neither does the model.
- The behaviour of the source on a read past the end of the buffer is undefined; the model fails there instead, as described above.
- ChunkStep: a negative declared length with 2^31 to 2^32 − 1 bytes after the header narrows to a negative `int`. The source then throws `std::length_error` from `resize` (`data`), or moves the cursor backwards and walks on, after a `fmt ` chunk has already assigned its three fields (any other id). The model fails the pass instead (`LengthOverflow`) and keeps only what earlier chunks wrote, because neither an exception nor a loop that may not end fits the decoder's boolean result.
- LoadWave: returns false where the C loop throws or moves backwards, as for `ChunkStep` above.
- InitializeSound: payload arguments are values in the model. The source takes `a_WaveData` by `const` reference and `Release()` clears `m_WaveData` before the copy (wdc/utils/Sound.cpp:60-68), so a call passing the object's own `m_WaveData` ends with an empty payload; the model stores the argument. `Load` (wdc/utils/Sound.cpp:78-81) has the same shape: passing the object's own payload as the buffer makes `LoadWave` resize the string it is reading, which is undefined, and the model reads the buffer as a separate value.
- Big-endian hosts: the packed records are read and written in little-endian order only.
- The `bool` that `SaveWave` returns is always true; `Wave.SaveWave` returns only the bytes and `SoundAsset.Sound.Save` returns the constant true beside them.

## Findings

| source | as written | input that shows it | evidently intended | confidence | as-written member | corrected member |
|---|---|---|---|---|---|---|
| wdc/utils/Sound.cpp:188-213 | the "rest of the buffer" for a negative chunk length is stored in an `int`; with 2^31 to 2^32 − 1 bytes after the header it is negative, so `resize` throws for `data` and the cursor moves backwards for any other id | a chunk header with a negative length, such as −1 or the −2^31 that `SaveWave` writes for a 2^31-byte payload, followed by 2^31 bytes | the cursor only moves forward, and such a chunk makes the call return false (`NegativeLengthOverflows`) | not executed | `WaveProperties.SourceCursorMovesBack` | `Wave.ChunkStep` |
