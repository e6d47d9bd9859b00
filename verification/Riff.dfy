/**
 * The packed (1-byte aligned) records of the RIFF/WAVE layout and the
 * four-character chunk identifiers.
 *
 * Each record is a datatype whose fields hold the values of the C fields;
 * `Parse…` reads one from exactly its number of bytes, as the source's
 * casts of the buffer do, and `…Bytes` writes one, as `stringstream::write` of the
 * record does.
 */
module Riff {
  import opened Bytes

  /** sizeof(IFF_FORM_CHUNK), sizeof(IFF_CHUNK), sizeof(WAV_PCM) */
  const FormChunkSize: nat := 12
  const ChunkSize: nat := 8
  const PcmSize: nat := 16

  type Tag = s: seq<byte> | |s| == 4 witness [0, 0, 0, 0]

  /** The ASCII bytes of "RIFF", "WAVE", "fmt " and "data". */
  const RiffTag: Tag := [0x52, 0x49, 0x46, 0x46]
  const WaveTag: Tag := [0x57, 0x41, 0x56, 0x45]
  const FmtTag: Tag := [0x66, 0x6D, 0x74, 0x20]
  const DataTag: Tag := [0x64, 0x61, 0x74, 0x61]

  /**
   * IDTAG(a, b, c, d): the four characters packed into one word with `a` in
   * the low byte. On a little-endian host this is the word that the bytes
   * "abcd" hold in memory, which is what CHUNKID reads.
   */
  function IdTag(a: byte, b: byte, c: byte, d: byte): (t: nat)
    ensures t == U32([a, b, c, d])
    ensures t < TwoTo32
  {
    d * 0x100_0000 + c * 0x1_0000 + b * 0x100 + a
  }

  /** CHUNKID(s): the first four bytes of `s` read as one word. */
  function ChunkId(s: Tag): (id: nat)
    ensures id == U32(s) && id < TwoTo32
  {
    assert s == [s[0], s[1], s[2], s[3]];
    IdTag(s[0], s[1], s[2], s[3])
  }

  const RiffId: nat := ChunkId(RiffTag)
  const WaveId: nat := ChunkId(WaveTag)
  const FmtId: nat := ChunkId(FmtTag)
  const DataId: nat := ChunkId(DataTag)

  /** A word holds the identifier `tag` exactly when its bytes spell `tag`. */
  lemma ChunkIdMatches(b: seq<byte>, tag: Tag)
    requires |b| == 4
    ensures U32(b) == ChunkId(tag) <==> b == tag
  {
    assert tag == [tag[0], tag[1], tag[2], tag[3]];
    U32Injective(b, tag);
  }

  /** The byte layout of a chunk identifier word is its tag. */
  lemma ChunkIdBytes(tag: Tag)
    ensures LeU32(ChunkId(tag)) == tag
  {
    assert tag == [tag[0], tag[1], tag[2], tag[3]];
    LeU32OfU32(tag);
  }

  /** IFF_FORM_CHUNK: form_id, form_length, id, each a 32-bit word. */
  datatype FormChunk = FormChunk(formId: nat, formLength: nat, id: nat)
  {
    predicate Fits()
    {
      formId < TwoTo32 && formLength < TwoTo32 && id < TwoTo32
    }
  }

  /** IFF_CHUNK: a 32-bit id and a signed 32-bit length. */
  datatype ChunkHeader = ChunkHeader(id: nat, length: int32)
  {
    predicate Fits()
    {
      id < TwoTo32
    }
  }

  /** WAV_PCM: the 16-byte body of a `fmt ` chunk. */
  datatype Pcm = Pcm(formatTag: nat, channels: nat, sampleRate: int32,
                     averageDataRate: int32, alignment: nat, bitsPerSample: nat)
  {
    predicate Fits()
    {
      formatTag < TwoTo16 && channels < TwoTo16 && alignment < TwoTo16 && bitsPerSample < TwoTo16
    }
  }

  function ParseFormChunk(b: seq<byte>): (f: FormChunk)
    requires |b| == FormChunkSize
    ensures f.Fits()
  {
    FormChunk(U32(b[..4]), U32(b[4..8]), U32(b[8..]))
  }

  function FormChunkBytes(f: FormChunk): (b: seq<byte>)
    requires f.Fits()
    ensures |b| == FormChunkSize && ParseFormChunk(b) == f
  {
    var b := LeU32(f.formId) + LeU32(f.formLength) + LeU32(f.id);
    assert b[..4] == LeU32(f.formId) && b[4..8] == LeU32(f.formLength) && b[8..] == LeU32(f.id);
    b
  }

  function ParseChunkHeader(b: seq<byte>): (h: ChunkHeader)
    requires |b| == ChunkSize
    ensures h.Fits()
  {
    ChunkHeader(U32(b[..4]), I32(b[4..]))
  }

  function ChunkHeaderBytes(h: ChunkHeader): (b: seq<byte>)
    requires h.Fits()
    ensures |b| == ChunkSize && ParseChunkHeader(b) == h
  {
    var b := LeU32(h.id) + LeI32(h.length);
    assert b[..4] == LeU32(h.id) && b[4..] == LeI32(h.length);
    b
  }

  function ParsePcm(b: seq<byte>): (p: Pcm)
    requires |b| == PcmSize
    ensures p.Fits()
  {
    Pcm(U16(b[0..2]), U16(b[2..4]), I32(b[4..8]), I32(b[8..12]), U16(b[12..14]), U16(b[14..16]))
  }

  function PcmBytes(p: Pcm): (b: seq<byte>)
    requires p.Fits()
    ensures |b| == PcmSize && ParsePcm(b) == p
  {
    var b := LeU16(p.formatTag) + LeU16(p.channels) + LeI32(p.sampleRate)
             + LeI32(p.averageDataRate) + LeU16(p.alignment) + LeU16(p.bitsPerSample);
    assert b[0..2] == LeU16(p.formatTag) && b[2..4] == LeU16(p.channels);
    assert b[4..8] == LeI32(p.sampleRate) && b[8..12] == LeI32(p.averageDataRate);
    assert b[12..14] == LeU16(p.alignment) && b[14..16] == LeU16(p.bitsPerSample);
    b
  }

  /** Twelve bytes are the form record read from them, written back. */
  lemma FormChunkOfBytes(b: seq<byte>)
    requires |b| == FormChunkSize
    ensures FormChunkBytes(ParseFormChunk(b)) == b
  {
    LeU32OfU32(b[..4]);
    LeU32OfU32(b[4..8]);
    LeU32OfU32(b[8..]);
    assert b == b[..4] + b[4..8] + b[8..];
  }

  /** Eight bytes are the chunk header read from them, written back. */
  lemma ChunkHeaderOfBytes(b: seq<byte>)
    requires |b| == ChunkSize
    ensures ChunkHeaderBytes(ParseChunkHeader(b)) == b
  {
    LeU32OfU32(b[..4]);
    LeI32OfI32(b[4..]);
    assert b == b[..4] + b[4..];
  }

  /** Sixteen bytes are the `WAV_PCM` record read from them, written back. */
  lemma PcmOfBytes(b: seq<byte>)
    requires |b| == PcmSize
    ensures PcmBytes(ParsePcm(b)) == b
  {
    LeU16OfU16(b[0..2]);
    LeU16OfU16(b[2..4]);
    LeI32OfI32(b[4..8]);
    LeI32OfI32(b[8..12]);
    LeU16OfU16(b[12..14]);
    LeU16OfU16(b[14..16]);
    assert b == b[0..2] + b[2..4] + b[4..8] + b[8..12] + b[12..14] + b[14..16];
  }
}
