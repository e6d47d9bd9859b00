/**
 * The RIFF/WAVE codec: `LoadWave` walks the chunks of a buffer and writes
 * what it finds through its reference parameters; `SaveWave` writes the
 * minimal 44-byte header followed by the payload.
 *
 * The four reference parameters of `LoadWave` are one `WaveFields` value,
 * passed in with the caller's current values and returned with the values
 * the call leaves in them.
 */
module Wave {
  import opened Bytes
  import opened Riff

  /** Sample rate, channel count, bits per sample and the raw PCM payload. */
  datatype WaveFields = WaveFields(rate: int32, channels: int32, bits: int32, waveData: seq<byte>)

  /** Whether decoding succeeded, and the values left in the reference parameters. */
  datatype Decoded = Decoded(ok: bool, fields: WaveFields)

  /** The three assignments of a `fmt ` chunk; the payload is left alone. */
  function WithFormat(fields: WaveFields, pcm: Pcm): WaveFields
    requires pcm.Fits()
  {
    fields.(rate := pcm.sampleRate, channels := pcm.channels, bits := pcm.bitsPerSample)
  }

  /**
   * The length the loop uses for a chunk, kept in a C `int`: the declared
   * length, or, when that is negative, the number of bytes remaining after
   * the header converted to `int`. That count is exact below 2^31; from
   * 2^31 to 2^32 - 1 it wraps to a negative number.
   */
  function EffectiveLength(declared: int32, remaining: nat): (len: int32)
    ensures declared >= 0 ==> len == declared
    ensures declared < 0 && remaining < TwoTo31 ==> len == remaining
    ensures declared < 0 && TwoTo31 <= remaining < TwoTo32 ==> len == remaining - TwoTo32
    ensures declared < 0 ==> (len - remaining) % TwoTo32 == 0
  {
    if declared < 0 then ToInt32(remaining) else declared
  }

  /**
   * Where one pass of the chunk loop leaves the cursor and the reference
   * parameters: a read past the end of the buffer, a length that is still
   * negative once narrowed to `int`, or the next chunk.
   */
  datatype Step = Truncated | LengthOverflow | Advance(next: nat, fields: WaveFields)

  /**
   * One pass of the chunk loop over the chunk header at offset `chunk`. A
   * negative declared length stands for the rest of the buffer. A read
   * past the end of the buffer (the chunk header, the 16-byte `fmt `
   * record or the `data` body) is `Truncated`. A rest of the buffer too
   * long for an `int` is `LengthOverflow`: there the C code would move the
   * cursor backwards or fail to size the payload, and the pass fails.
   */
  function ChunkStep(fileData: seq<byte>, chunk: nat, fields: WaveFields): (s: Step)
    requires chunk < |fileData|
    ensures s.Advance? ==> chunk + ChunkSize <= s.next
  {
    var end := |fileData|;
    if end - chunk < ChunkSize then Truncated
    else
      var header := ParseChunkHeader(fileData[chunk..chunk + ChunkSize]);
      var body := chunk + ChunkSize;
      var chunkLength := EffectiveLength(header.length, end - body);
      if chunkLength < 0 then LengthOverflow
      else
        var next := body + chunkLength;
        if header.id == FmtId then
          if end - body < PcmSize then Truncated
          else Advance(next, WithFormat(fields, ParsePcm(fileData[body..body + PcmSize])))
        else if header.id == DataId then
          if end - body < chunkLength then Truncated
          else Advance(next, fields.(waveData := fileData[body..next]))
        else
          Advance(next, fields)
  }

  /**
   * The chunk loop from offset `chunk` on: it ends successfully once the
   * cursor is at or past the end, and fails at a truncated chunk keeping
   * what earlier chunks wrote.
   */
  function Walk(fileData: seq<byte>, chunk: nat, fields: WaveFields): Decoded
    decreases |fileData| - chunk
  {
    if chunk >= |fileData| then Decoded(true, fields)
    else match ChunkStep(fileData, chunk, fields)
      case Truncated => Decoded(false, fields)
      case LengthOverflow => Decoded(false, fields)
      case Advance(next, after) => Walk(fileData, next, after)
  }

  /** The whole decoder: the form header, then the chunks from offset 12. */
  function LoadWaveSpec(fileData: seq<byte>, fields: WaveFields): Decoded
  {
    if |fileData| < FormChunkSize then Decoded(false, fields)
    else
      var form := ParseFormChunk(fileData[..FormChunkSize]);
      if form.formId != RiffId || form.id != WaveId then Decoded(false, fields)
      else Walk(fileData, FormChunkSize, fields)
  }

  /** Sound::LoadWave: the chunk cursor loop over `fileData`. */
  method LoadWave(fileData: seq<byte>, fields: WaveFields) returns (ok: bool, result: WaveFields)
    ensures Decoded(ok, result) == LoadWaveSpec(fileData, fields)
  {
    // The proof compares the loop's reads with the same reads in `ChunkStep`,
    // so it never needs to look inside the record parsers.
    hide ParseFormChunk, ParseChunkHeader, ParsePcm;
    if |fileData| < FormChunkSize {
      return false, fields;
    }
    var form := ParseFormChunk(fileData[..FormChunkSize]);
    if form.formId != RiffId || form.id != WaveId {
      return false, fields;
    }

    var end := |fileData|;
    var chunk: nat := FormChunkSize;
    result := fields;
    while chunk < end
      invariant Walk(fileData, chunk, result) == Walk(fileData, FormChunkSize, fields)
      decreases end - chunk
    {
      ghost var step := ChunkStep(fileData, chunk, result);
      if end - chunk < ChunkSize {
        assert step == Truncated;
        return false, result;
      }
      var header := ParseChunkHeader(fileData[chunk..chunk + ChunkSize]);
      var body := chunk + ChunkSize;
      var chunkLength: int := header.length;
      if chunkLength < 0 {
        chunkLength := ToInt32(end - body);
      }
      if chunkLength < 0 {
        assert step == LengthOverflow;
        return false, result;
      }

      if header.id == FmtId {
        if end - body < PcmSize {
          assert step == Truncated;
          return false, result;
        }
        var pcm := ParsePcm(fileData[body..body + PcmSize]);
        result := WithFormat(result, pcm);
      } else if header.id == DataId {
        if end - body < chunkLength {
          assert step == Truncated;
          return false, result;
        }
        result := result.(waveData := fileData[body..body + chunkLength]);
      }

      chunk := body + chunkLength;
      assert step == Advance(chunk, result);
    }
    ok := true;
  }

  /** C division of an `int` by 8: the quotient truncated toward zero. */
  function TruncDiv8(x: int): (q: int)
    ensures 0 <= x ==> 0 <= 8 * q <= x < 8 * q + 8
    ensures x < 0 ==> 8 * q - 8 < x <= 8 * q <= 0
  {
    if x >= 0 then x / 8 else -((-x) / 8)
  }

  /**
   * `(nRate * nBits * nChannels) / 8` evaluated in `int`: the product wraps
   * modulo 2^32 as two's-complement hardware computes it, then the division
   * truncates.
   */
  function AverageDataRate(rate: int32, channels: int32, bits: int32): (avg: int32)
    ensures -0x1000_0000 <= avg < 0x1000_0000
  {
    TruncDiv8(ToInt32(rate * bits * channels))
  }

  /** The `fmt ` record SaveWave writes: PCM, block alignment 2, 16-bit counts. */
  function EncodedPcm(rate: int32, channels: int32, bits: int32): (pcm: Pcm)
    ensures pcm.Fits()
    ensures pcm.formatTag == 1 && pcm.alignment == 2
    ensures pcm.sampleRate == rate && pcm.averageDataRate == AverageDataRate(rate, channels, bits)
    ensures pcm.channels == channels % TwoTo16 && pcm.bitsPerSample == bits % TwoTo16
  {
    Pcm(1, ToWord(channels), rate, AverageDataRate(rate, channels, bits), 2, ToWord(bits))
  }

  /** Sound::SaveWave: form header, `fmt ` chunk, `data` chunk, payload. */
  function SaveWave(rate: int32, channels: int32, bits: int32, waveData: seq<byte>): (fileData: seq<byte>)
    ensures |fileData| == FormChunkSize + ChunkSize + PcmSize + ChunkSize + |waveData|
  {
    var form := FormChunk(RiffId, ToDword(ChunkSize + PcmSize + ChunkSize + |waveData| + 4), WaveId);
    var format := ChunkHeader(FmtId, PcmSize);
    var data := ChunkHeader(DataId, ToInt32(|waveData|));
    FormChunkBytes(form) + ChunkHeaderBytes(format) + PcmBytes(EncodedPcm(rate, channels, bits))
      + ChunkHeaderBytes(data) + waveData
  }
}
