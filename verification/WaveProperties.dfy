/**
 * What the codec promises: how the decoder treats the form header and each
 * kind of chunk, a reference reading of a well-framed chunk stream, the
 * byte layout the encoder writes, and the round trip between the two.
 */
module WaveProperties {
  import opened Bytes
  import opened Riff
  import opened Wave

  // ---------------------------------------------------------------------
  // The form header

  /**
   * The decoder goes on to the chunks exactly when bytes 0-3 spell "RIFF"
   * and bytes 8-11 spell "WAVE"; otherwise it fails with every reference
   * parameter as it was.
   */
  lemma HeaderCheck(fileData: seq<byte>, fields: WaveFields)
    ensures LoadWaveSpec(fileData, fields) ==
      if |fileData| >= FormChunkSize && fileData[..4] == RiffTag && fileData[8..12] == WaveTag
      then Walk(fileData, FormChunkSize, fields)
      else Decoded(false, fields)
  {
    if |fileData| >= FormChunkSize {
      var form := fileData[..FormChunkSize];
      assert form[..4] == fileData[..4] && form[8..] == fileData[8..12];
      ChunkIdMatches(fileData[..4], RiffTag);
      ChunkIdMatches(fileData[8..12], WaveTag);
    }
  }

  /** A buffer that does not start with the RIFF/WAVE form is rejected untouched. */
  lemma BadHeaderRejected(fileData: seq<byte>, fields: WaveFields)
    requires |fileData| < FormChunkSize || fileData[..4] != RiffTag || fileData[8..12] != WaveTag
    ensures LoadWaveSpec(fileData, fields) == Decoded(false, fields)
  {
    HeaderCheck(fileData, fields);
  }

  /** The form-length field (bytes 4-7) is never consulted. */
  lemma FormLengthIgnored(a: seq<byte>, b: seq<byte>, fields: WaveFields)
    requires |a| == |b| >= FormChunkSize
    requires a[..4] == b[..4] && a[8..] == b[8..]
    ensures LoadWaveSpec(a, fields) == LoadWaveSpec(b, fields)
  {
    assert a[8..12] == a[8..][..4] == b[8..][..4] == b[8..12];
    HeaderCheck(a, fields);
    HeaderCheck(b, fields);
    assert a[12..] == a[8..][4..] == b[8..][4..] == b[12..];
    WalkWindow(a, FormChunkSize, fields);
    WalkWindow(b, FormChunkSize, fields);
  }

  // ---------------------------------------------------------------------
  // One chunk at a time

  /**
   * A slice of the window at `chunk` is the slice of the buffer `chunk`
   * bytes further on; a separate step so that `ChunkStepWindow` can keep
   * the parsers hidden.
   */
  lemma WindowSlice(fileData: seq<byte>, chunk: nat, i: nat, j: nat)
    requires i <= j && chunk + j <= |fileData|
    ensures fileData[chunk..][i..j] == fileData[chunk + i..chunk + j]
  {
  }

  /** One loop pass at `chunk` is the pass at the start of the window there, moved by `chunk`. */
  lemma ChunkStepWindow(fileData: seq<byte>, chunk: nat, fields: WaveFields)
    requires chunk < |fileData|
    ensures ChunkStep(fileData, chunk, fields) ==
      match ChunkStep(fileData[chunk..], 0, fields)
      case Truncated => Truncated
      case LengthOverflow => LengthOverflow
      case Advance(next, after) => Advance(chunk + next, after)
  {
    hide ParseChunkHeader, ParsePcm;
    var window := fileData[chunk..];
    if |window| >= ChunkSize {
      WindowSlice(fileData, chunk, 0, ChunkSize);
      var header := ParseChunkHeader(window[0..ChunkSize]);
      var len := EffectiveLength(header.length, |window| - ChunkSize);
      if |window| - ChunkSize >= PcmSize {
        WindowSlice(fileData, chunk, ChunkSize, ChunkSize + PcmSize);
      }
      if 0 <= len <= |window| - ChunkSize {
        WindowSlice(fileData, chunk, ChunkSize, ChunkSize + len);
      }
    }
  }

  /** The walk at a cursor inside the buffer is one loop pass followed by the walk from where it ends. */
  lemma WalkUnfold(fileData: seq<byte>, chunk: nat, fields: WaveFields)
    requires chunk < |fileData|
    ensures Walk(fileData, chunk, fields) ==
      match ChunkStep(fileData, chunk, fields)
      case Truncated => Decoded(false, fields)
      case LengthOverflow => Decoded(false, fields)
      case Advance(next, after) => Walk(fileData, next, after)
  {
  }

  /** The chunk loop run over `window`, the bytes from the cursor to the end of the buffer. */
  function WindowWalk(window: seq<byte>, fields: WaveFields): Decoded
    decreases |window|
  {
    if |window| == 0 then Decoded(true, fields)
    else
      var step := ChunkStep(window, 0, fields);
      if !step.Advance? then Decoded(false, fields)
      else if step.next >= |window| then Decoded(true, step.fields)
      else WindowWalk(window[step.next..], step.fields)
  }

  /** A non-empty window is one loop pass at its start, then the window where that pass ends. */
  lemma WindowWalkUnfold(window: seq<byte>, fields: WaveFields)
    requires |window| > 0
    ensures var step := ChunkStep(window, 0, fields);
      WindowWalk(window, fields) ==
        if !step.Advance? then Decoded(false, fields)
        else if step.next >= |window| then Decoded(true, step.fields)
        else WindowWalk(window[step.next..], step.fields)
  {
  }

  /**
   * The chunk walk from `chunk` depends only on the bytes from `chunk` to
   * the end: bytes in front of the cursor are never read, and the "rest of
   * the buffer" length is measured from the cursor.
   */
  lemma {:induction false} WalkWindow(fileData: seq<byte>, chunk: nat, fields: WaveFields)
    requires chunk <= |fileData|
    ensures Walk(fileData, chunk, fields) == WindowWalk(fileData[chunk..], fields)
    decreases |fileData| - chunk
  {
    hide ChunkStep;
    if chunk < |fileData| {
      var window := fileData[chunk..];
      var step := ChunkStep(window, 0, fields);
      ChunkStepWindow(fileData, chunk, fields);
      WalkUnfold(fileData, chunk, fields);
      WindowWalkUnfold(window, fields);
      if step.Advance? && step.next < |window| {
        assert fileData[chunk..][step.next..] == fileData[chunk + step.next..];
        WalkWindow(fileData, chunk + step.next, step.fields);
      }
    }
  }

  /** The effective length, as an `int`, of the chunk whose header starts at `chunk`. */
  function LengthAt(fileData: seq<byte>, chunk: nat): int32
    requires chunk + ChunkSize <= |fileData|
  {
    EffectiveLength(I32(fileData[chunk + 4..chunk + 8]), |fileData| - chunk - ChunkSize)
  }

  /**
   * A `fmt ` chunk sets rate (int32 at body offset 4), channels (uint16 at
   * offset 2) and bits (uint16 at offset 14), leaves the payload alone, and
   * the cursor moves past its header and effective length; an effective
   * length that is negative fails the walk.
   */
  lemma FmtChunkStep(fileData: seq<byte>, chunk: nat, fields: WaveFields)
    requires chunk + ChunkSize + PcmSize <= |fileData|
    requires fileData[chunk..chunk + 4] == FmtTag
    ensures Walk(fileData, chunk, fields) ==
      if LengthAt(fileData, chunk) < 0 then Decoded(false, fields)
      else Walk(fileData, chunk + ChunkSize + LengthAt(fileData, chunk),
                fields.(rate := I32(fileData[chunk + 12..chunk + 16]),
                        channels := U16(fileData[chunk + 10..chunk + 12]),
                        bits := U16(fileData[chunk + 22..chunk + 24])))
  {
    hide U16, U32, I32;
    var head := fileData[chunk..chunk + ChunkSize];
    assert head[..4] == fileData[chunk..chunk + 4] && head[4..] == fileData[chunk + 4..chunk + 8];
    ChunkIdMatches(head[..4], FmtTag);
    var body := chunk + ChunkSize;
    SliceOfSlice(fileData, body, body + PcmSize, 2, 4);
    SliceOfSlice(fileData, body, body + PcmSize, 4, 8);
    SliceOfSlice(fileData, body, body + PcmSize, 14, 16);
  }

  /**
   * A `data` chunk whose body lies inside the buffer replaces the payload
   * with exactly its effective-length body, and nothing else; an effective
   * length that is negative fails the walk.
   */
  lemma DataChunkStep(fileData: seq<byte>, chunk: nat, fields: WaveFields)
    requires chunk + ChunkSize <= |fileData|
    requires fileData[chunk..chunk + 4] == DataTag
    requires chunk + ChunkSize + LengthAt(fileData, chunk) <= |fileData|
    ensures var body := chunk + ChunkSize;
            var next := body + LengthAt(fileData, chunk);
            Walk(fileData, chunk, fields) ==
              if next < body then Decoded(false, fields)
              else Walk(fileData, next, fields.(waveData := fileData[body..next]))
  {
    var head := fileData[chunk..chunk + ChunkSize];
    assert head[..4] == fileData[chunk..chunk + 4] && head[4..] == fileData[chunk + 4..chunk + 8];
    ChunkIdMatches(head[..4], DataTag);
    ChunkIdMatches(head[..4], FmtTag);
  }

  /**
   * A chunk that is neither `fmt ` nor `data` changes nothing; the cursor
   * skips it, unless its effective length is negative, which fails the walk.
   */
  lemma OtherChunkSkipped(fileData: seq<byte>, chunk: nat, fields: WaveFields)
    requires chunk + ChunkSize <= |fileData|
    requires fileData[chunk..chunk + 4] != FmtTag && fileData[chunk..chunk + 4] != DataTag
    ensures Walk(fileData, chunk, fields) ==
      if LengthAt(fileData, chunk) < 0 then Decoded(false, fields)
      else Walk(fileData, chunk + ChunkSize + LengthAt(fileData, chunk), fields)
  {
    var head := fileData[chunk..chunk + ChunkSize];
    assert head[..4] == fileData[chunk..chunk + 4] && head[4..] == fileData[chunk + 4..chunk + 8];
    ChunkIdMatches(head[..4], DataTag);
    ChunkIdMatches(head[..4], FmtTag);
    var header := ParseChunkHeader(head);
    assert header.id != FmtId && header.id != DataId && header.length == I32(fileData[chunk + 4..chunk + 8]);
    WalkUnfold(fileData, chunk, fields);
  }

  /**
   * A `data` chunk with a negative declared length and fewer than 2^31
   * bytes after its header takes every one of them as the payload, and the
   * walk then ends successfully.
   */
  lemma NegativeLengthSpansRest(fileData: seq<byte>, chunk: nat, fields: WaveFields)
    requires chunk + ChunkSize <= |fileData|
    requires fileData[chunk..chunk + 4] == DataTag
    requires I32(fileData[chunk + 4..chunk + 8]) < 0
    requires |fileData| - chunk - ChunkSize < TwoTo31
    ensures Walk(fileData, chunk, fields) ==
      Decoded(true, fields.(waveData := fileData[chunk + ChunkSize..]))
  {
    DataChunkStep(fileData, chunk, fields);
    assert fileData[chunk + ChunkSize..|fileData|] == fileData[chunk + ChunkSize..];
  }

  /**
   * A chunk with a negative declared length and fewer than 2^31 bytes
   * after its header is the last one read: unless it is truncated, the
   * cursor lands exactly on the end of the buffer and the walk succeeds
   * with that chunk's effect.
   */
  lemma NegativeLengthIsLast(fileData: seq<byte>, chunk: nat, fields: WaveFields)
    requires chunk + ChunkSize <= |fileData|
    requires I32(fileData[chunk + 4..chunk + 8]) < 0
    requires |fileData| - chunk - ChunkSize < TwoTo31
    requires ChunkStep(fileData, chunk, fields).Advance?
    ensures ChunkStep(fileData, chunk, fields).next == |fileData|
    ensures Walk(fileData, chunk, fields) == Decoded(true, ChunkStep(fileData, chunk, fields).fields)
  {
    var head := fileData[chunk..chunk + ChunkSize];
    assert head[4..] == fileData[chunk + 4..chunk + 8];
  }

  /**
   * A chunk with a negative declared length and 2^31 to 2^32 - 1 bytes
   * after its header, whatever its id, fails the walk: the rest of the
   * buffer does not fit the `int` that holds it, and the earlier chunks'
   * writes stay.
   */
  lemma NegativeLengthOverflows(fileData: seq<byte>, chunk: nat, fields: WaveFields)
    requires chunk + ChunkSize <= |fileData|
    requires I32(fileData[chunk + 4..chunk + 8]) < 0
    requires TwoTo31 <= |fileData| - chunk - ChunkSize < TwoTo32
    ensures ChunkStep(fileData, chunk, fields) == LengthOverflow
    ensures Walk(fileData, chunk, fields) == Decoded(false, fields)
  {
    var head := fileData[chunk..chunk + ChunkSize];
    assert head[4..] == fileData[chunk + 4..chunk + 8];
  }

  /**
   * The cursor update of the C loop, `pChunk + 1` plus `chunkLength`, with
   * the narrowed length used as it comes, negative or not.
   */
  function SourceNextCursor(chunk: nat, declared: int32, end: nat): int
    requires chunk + ChunkSize <= end
  {
    chunk + ChunkSize + EffectiveLength(declared, end - chunk - ChunkSize)
  }

  /**
   * As written, a negative declared length with 2^31 to 2^32 - 1 bytes
   * after the header moves the cursor back to before the chunk's body, and,
   * unless fewer than 8 bytes short of 2^32 remain, to the chunk's own
   * header or before it.
   */
  lemma SourceCursorMovesBack(chunk: nat, declared: int32, end: nat)
    requires chunk + ChunkSize <= end
    requires declared < 0 && TwoTo31 <= end - chunk - ChunkSize < TwoTo32
    ensures SourceNextCursor(chunk, declared, end) < chunk + ChunkSize
    ensures end - chunk - ChunkSize <= TwoTo32 - ChunkSize ==> SourceNextCursor(chunk, declared, end) <= chunk
  {
  }

  /**
   * A chunk that is neither `fmt ` nor `data` and whose declared length
   * runs to or past the end of the buffer ends the walk successfully; its
   * body is never read.
   */
  lemma OverlongChunkEndsWalk(fileData: seq<byte>, chunk: nat, fields: WaveFields)
    requires chunk + ChunkSize <= |fileData|
    requires fileData[chunk..chunk + 4] != FmtTag && fileData[chunk..chunk + 4] != DataTag
    requires I32(fileData[chunk + 4..chunk + 8]) >= |fileData| - chunk - ChunkSize
    ensures Walk(fileData, chunk, fields) == Decoded(true, fields)
  {
    OtherChunkSkipped(fileData, chunk, fields);
  }

  // ---------------------------------------------------------------------
  // A reference reading of well-framed chunk streams

  /** One chunk as a producer lays it out: id, length, body. */
  datatype RawChunk = RawChunk(id: Tag, body: seq<byte>)

  /** The chunk's bytes, with its length stored as the encoder stores it: converted to `int`. */
  function ChunkBytes(c: RawChunk): seq<byte>
  {
    c.id + LeI32(ToInt32(|c.body|)) + c.body
  }

  function Stream(cs: seq<RawChunk>): seq<byte>
  {
    if cs == [] then [] else ChunkBytes(cs[0]) + Stream(cs[1..])
  }

  /**
   * The chunks can be framed by their length fields: every body's length
   * fits a non-negative `int`, and every `fmt ` body holds the 16-byte
   * record.
   */
  predicate Framed(cs: seq<RawChunk>)
  {
    cs == [] ||
    (&& |cs[0].body| < TwoTo31
     && (cs[0].id == FmtTag ==> |cs[0].body| >= PcmSize)
     && Framed(cs[1..]))
  }

  /** What one chunk does to the decoded fields, read from the chunk itself. */
  function ChunkEffect(c: RawChunk, fields: WaveFields): WaveFields
  {
    if c.id == FmtTag && |c.body| >= PcmSize then WithFormat(fields, ParsePcm(c.body[..PcmSize]))
    else if c.id == DataTag then fields.(waveData := c.body)
    else fields
  }

  /** The chunks' effects, first to last. */
  function Fold(cs: seq<RawChunk>, fields: WaveFields): WaveFields
  {
    if cs == [] then fields else Fold(cs[1..], ChunkEffect(cs[0], fields))
  }

  /** The chunk loop over a framed stream succeeds and applies each chunk in order. */
  lemma {:induction false} WalkStream(cs: seq<RawChunk>, fields: WaveFields)
    requires Framed(cs)
    ensures WindowWalk(Stream(cs), fields) == Decoded(true, Fold(cs, fields))
  {
    if cs != [] {
      var head := ChunkBytes(cs[0]);
      var rest := Stream(cs[1..]);
      var after := ChunkEffect(cs[0], fields);
      assert Stream(cs) == head + rest;
      FirstChunkStep(cs[0], rest, fields);
      WindowWalkUnfold(head + rest, fields);
      if rest == [] {
        assert cs[1..] == [];
      } else {
        assert (head + rest)[|head|..] == rest;
        WalkStream(cs[1..], after);
      }
    }
  }

  /** The loop reads a chunk laid out by `ChunkBytes` as that chunk, whatever follows it. */
  lemma FirstChunkStep(c: RawChunk, rest: seq<byte>, fields: WaveFields)
    requires |c.body| < TwoTo31
    requires c.id == FmtTag ==> |c.body| >= PcmSize
    ensures ChunkStep(ChunkBytes(c) + rest, 0, fields) == Advance(|ChunkBytes(c)|, ChunkEffect(c, fields))
  {
    var buf := ChunkBytes(c) + rest;
    var length := ToInt32(|c.body|);
    var headBytes := c.id + LeI32(length);
    assert buf[0..ChunkSize] == headBytes;
    assert headBytes[..4] == c.id && headBytes[4..] == LeI32(length);
    var header := ParseChunkHeader(headBytes);
    assert header.id == U32(c.id) && header.length == length;
    var len := EffectiveLength(header.length, |buf| - ChunkSize);
    assert len == |c.body|;
    assert buf[ChunkSize..ChunkSize + len] == c.body;
    ChunkIdMatches(c.id, FmtTag);
    ChunkIdMatches(c.id, DataTag);
    if c.id == FmtTag {
      assert buf[ChunkSize..ChunkSize + PcmSize] == c.body[..PcmSize];
    }
  }

  /** A RIFF/WAVE form header followed by a framed stream decodes to the stream's effects. */
  lemma LoadStream(form: seq<byte>, cs: seq<RawChunk>, fields: WaveFields)
    requires |form| == FormChunkSize && form[..4] == RiffTag && form[8..] == WaveTag
    requires Framed(cs)
    ensures LoadWaveSpec(form + Stream(cs), fields) == Decoded(true, Fold(cs, fields))
  {
    var buf := form + Stream(cs);
    assert buf[..4] == RiffTag && buf[8..12] == WaveTag;
    HeaderCheck(buf, fields);
    WalkWindow(buf, FormChunkSize, fields);
    assert (form + Stream(cs))[|form|..] == Stream(cs);
    WalkStream(cs, fields);
  }

  /** Without a `data` chunk the payload keeps whatever it held before the call. */
  lemma {:induction false} FoldKeepsPayload(cs: seq<RawChunk>, fields: WaveFields)
    requires forall i | 0 <= i < |cs| :: cs[i].id != DataTag
    ensures Fold(cs, fields).waveData == fields.waveData
  {
    if cs != [] {
      FoldKeepsPayload(cs[1..], ChunkEffect(cs[0], fields));
    }
  }

  /** Dropping a chunk that is neither `fmt ` nor `data` from the stream changes nothing. */
  lemma {:induction false} FoldSkipsOtherChunk(cs: seq<RawChunk>, i: nat, fields: WaveFields)
    requires i < |cs| && cs[i].id != FmtTag && cs[i].id != DataTag
    ensures Fold(cs, fields) == Fold(cs[..i] + cs[i + 1..], fields)
  {
    if i == 0 {
      assert cs[..0] + cs[1..] == cs[1..];
    } else {
      assert (cs[..i] + cs[i + 1..])[1..] == cs[1..][..i - 1] + cs[1..][i..];
      FoldSkipsOtherChunk(cs[1..], i - 1, ChunkEffect(cs[0], fields));
    }
  }

  /**
   * An unrecognised chunk between `fmt ` and `data` does not disturb
   * either: the buffer decodes as it would without it.
   */
  lemma OtherChunkBetween(form: seq<byte>, format: RawChunk, other: RawChunk, data: RawChunk, fields: WaveFields)
    requires |form| == FormChunkSize && form[..4] == RiffTag && form[8..] == WaveTag
    requires format.id == FmtTag && PcmSize <= |format.body| < TwoTo31
    requires other.id != FmtTag && other.id != DataTag && |other.body| < TwoTo31
    requires data.id == DataTag && |data.body| < TwoTo31
    ensures LoadWaveSpec(form + Stream([format, other, data]), fields) ==
            LoadWaveSpec(form + Stream([format, data]), fields)
  {
    var three, two := [format, other, data], [format, data];
    assert three[1..] == [other, data] && three[1..][1..] == [data] && three[1..][1..][1..] == [];
    assert two[1..] == [data] && two[1..][1..] == [];
    assert Framed([data]) && Framed([other, data]);
    LoadStream(form, three, fields);
    LoadStream(form, two, fields);
    FoldSkipsOtherChunk(three, 1, fields);
    assert three[..1] + three[2..] == two;
  }

  /**
   * A form without a `data` chunk succeeds and leaves the previous payload
   * in place; rate, channels and bits are whatever its `fmt ` chunks set
   * (`LoadStream`).
   */
  lemma FmtWithoutDataKeepsPayload(form: seq<byte>, cs: seq<RawChunk>, fields: WaveFields)
    requires |form| == FormChunkSize && form[..4] == RiffTag && form[8..] == WaveTag
    requires Framed(cs)
    requires forall i | 0 <= i < |cs| :: cs[i].id != DataTag
    ensures LoadWaveSpec(form + Stream(cs), fields).ok
    ensures LoadWaveSpec(form + Stream(cs), fields).fields.waveData == fields.waveData
  {
    LoadStream(form, cs, fields);
    FoldKeepsPayload(cs, fields);
  }

  // ---------------------------------------------------------------------
  // The encoder

  /** A form header written for "RIFF" ... "WAVE" spells those tags and holds the length. */
  lemma FormChunkLayout(formLength: nat)
    requires formLength < TwoTo32
    ensures var b := FormChunkBytes(FormChunk(RiffId, formLength, WaveId));
      b[..4] == RiffTag && U32(b[4..8]) == formLength && b[8..] == WaveTag
  {
    var b := FormChunkBytes(FormChunk(RiffId, formLength, WaveId));
    ChunkIdMatches(b[..4], RiffTag);
    ChunkIdMatches(b[8..], WaveTag);
  }

  /** A chunk header written for a tag is the tag's bytes and then the length. */
  lemma ChunkHeaderLayout(tag: Tag, length: int32)
    ensures ChunkHeaderBytes(ChunkHeader(ChunkId(tag), length)) == tag + LeI32(length)
  {
    ChunkIdBytes(tag);
  }

  /** The encoder's output is the 44-byte header, then the payload. */
  lemma SaveWaveParts(rate: int32, channels: int32, bits: int32, waveData: seq<byte>)
    ensures var len := ToDword(ChunkSize + PcmSize + ChunkSize + |waveData| + 4);
      SaveWave(rate, channels, bits, waveData) ==
        FormChunkBytes(FormChunk(RiffId, len, WaveId))
        + (FmtTag + LeI32(PcmSize as int32) + PcmBytes(EncodedPcm(rate, channels, bits)))
        + (DataTag + LeI32(ToInt32(|waveData|)) + waveData)
  {
    ChunkHeaderLayout(FmtTag, PcmSize as int32);
    ChunkHeaderLayout(DataTag, ToInt32(|waveData|));
  }

  /** A slice of a slice is a slice of the whole. */
  lemma SliceOfSlice(s: seq<byte>, lo: nat, hi: nat, i: nat, j: nat)
    requires i <= j && lo + j <= hi <= |s|
    ensures s[lo..hi][i..j] == s[lo + i..lo + j]
  {
    var inner := s[lo..hi][i..j];
    assert forall k | 0 <= k < |inner| :: inner[k] == s[lo + i + k];
  }

  /** The encoder's output cut into form header, `fmt ` header, record, `data` header and payload. */
  lemma SaveWaveSegments(rate: int32, channels: int32, bits: int32, waveData: seq<byte>)
    ensures var f := SaveWave(rate, channels, bits, waveData);
      && f[0..12] == FormChunkBytes(FormChunk(RiffId, ToDword(36 + |waveData|), WaveId))
      && f[12..20] == FmtTag + LeI32(16)
      && f[20..36] == PcmBytes(EncodedPcm(rate, channels, bits))
      && f[36..44] == DataTag + LeI32(ToInt32(|waveData|))
      && f[44..] == waveData
  {
    var f := SaveWave(rate, channels, bits, waveData);
    var form := FormChunkBytes(FormChunk(RiffId, ToDword(36 + |waveData|), WaveId));
    var format := FmtTag + LeI32(16);
    var pcm := PcmBytes(EncodedPcm(rate, channels, bits));
    var data := DataTag + LeI32(ToInt32(|waveData|));
    SaveWaveParts(rate, channels, bits, waveData);
    hide SaveWave, FormChunkBytes, PcmBytes, LeI32;
    assert f == form + (format + pcm) + (data + waveData);
    assert ((form + (format + pcm)) + (data + waveData))[..|form + (format + pcm)|] == form + (format + pcm) && ((form + (format + pcm)) + (data + waveData))[|form + (format + pcm)|..] == data + waveData;
    assert (form + (format + pcm))[..|form|] == form && (form + (format + pcm))[|form|..] == format + pcm;
    assert (format + pcm)[..|format|] == format && (format + pcm)[|format|..] == pcm;
    assert (data + waveData)[..|data|] == data && (data + waveData)[|data|..] == waveData;
    SliceOfSlice(f, 0, 36, 12, 36);
    SliceOfSlice(f, 0, 36, 12, 20);
    SliceOfSlice(f, 0, 36, 20, 36);
    SliceOfSlice(f, 36, |f|, 0, 8);
    SliceOfSlice(f, 36, |f|, 8, |f| - 36);
    assert f[36..][8..] == f[44..];
  }

  /** The encoder's output, field by field. */
  lemma SaveWaveLayout(rate: int32, channels: int32, bits: int32, waveData: seq<byte>)
    ensures var f := SaveWave(rate, channels, bits, waveData);
      && |f| == 44 + |waveData|
      && f[0..4] == RiffTag
      && U32(f[4..8]) == (36 + |waveData|) % TwoTo32
      && f[8..12] == WaveTag
      && f[12..16] == FmtTag
      && I32(f[16..20]) == 16
      && U16(f[20..22]) == 1
      && U16(f[22..24]) == channels % TwoTo16
      && I32(f[24..28]) == rate
      && I32(f[28..32]) == AverageDataRate(rate, channels, bits)
      && U16(f[32..34]) == 2
      && U16(f[34..36]) == bits % TwoTo16
      && f[36..40] == DataTag
      && I32(f[40..44]) == ToInt32(|waveData|)
      && f[44..] == waveData
  {
    var f := SaveWave(rate, channels, bits, waveData);
    var formLength := ToDword(36 + |waveData|);
    SaveWaveSegments(rate, channels, bits, waveData);
    hide SaveWave, FormChunkBytes, PcmBytes, U16, U32, I32, LeU16, LeU32, LeI32;
    FormFields(f, formLength);
    HeaderFields(f, 12, FmtTag, 16);
    PcmFields(f, PcmBytes(EncodedPcm(rate, channels, bits)));
    HeaderFields(f, 36, DataTag, ToInt32(|waveData|));
  }

  /** The three words of a RIFF/WAVE form header at the start of `f`. */
  lemma FormFields(f: seq<byte>, formLength: nat)
    requires formLength < TwoTo32
    requires |f| >= FormChunkSize && f[0..12] == FormChunkBytes(FormChunk(RiffId, formLength, WaveId))
    ensures f[0..4] == RiffTag && U32(f[4..8]) == formLength && f[8..12] == WaveTag
  {
    var form := FormChunkBytes(FormChunk(RiffId, formLength, WaveId));
    FormChunkLayout(formLength);
    hide FormChunkBytes, U32;
    SliceOfSlice(f, 0, 12, 0, 4);
    SliceOfSlice(f, 0, 12, 4, 8);
    SliceOfSlice(f, 0, 12, 8, 12);
    assert form[0..4] == form[..4] && form[8..12] == form[8..];
  }

  /** The tag and the length of a chunk header written at offset `at` of `f`. */
  lemma HeaderFields(f: seq<byte>, at: nat, tag: Tag, length: int32)
    requires at + ChunkSize <= |f| && f[at..at + 8] == tag + LeI32(length)
    ensures f[at..at + 4] == tag && I32(f[at + 4..at + 8]) == length
  {
    hide LeI32, I32;
    assert (tag + LeI32(length))[..|tag|] == tag && (tag + LeI32(length))[|tag|..] == LeI32(length);
    SliceOfSlice(f, at, at + 8, 0, 4);
    SliceOfSlice(f, at, at + 8, 4, 8);
  }

  /** The six fields of the `fmt ` record at bytes 20-35. */
  lemma PcmFields(f: seq<byte>, pcm: seq<byte>)
    requires |f| >= 36 && |pcm| == PcmSize && f[20..36] == pcm
    ensures var p := ParsePcm(pcm);
      && U16(f[20..22]) == p.formatTag && U16(f[22..24]) == p.channels
      && I32(f[24..28]) == p.sampleRate && I32(f[28..32]) == p.averageDataRate
      && U16(f[32..34]) == p.alignment && U16(f[34..36]) == p.bitsPerSample
  {
    hide U16, I32;
    SliceOfSlice(f, 20, 36, 0, 2);
    SliceOfSlice(f, 20, 36, 2, 4);
    SliceOfSlice(f, 20, 36, 4, 8);
    SliceOfSlice(f, 20, 36, 8, 12);
    SliceOfSlice(f, 20, 36, 12, 14);
    SliceOfSlice(f, 20, 36, 14, 16);
  }

  /** Rate 16000, one channel, 16 bits and 100 payload bytes give a 144-byte buffer. */
  lemma SaveWaveExample(waveData: seq<byte>)
    requires |waveData| == 100
    ensures var f := SaveWave(16000, 1, 16, waveData);
      && |f| == 144 && f[0..4] == RiffTag && f[8..12] == WaveTag && f[12..16] == FmtTag
      && I32(f[16..20]) == 16 && I32(f[28..32]) == 32000
      && f[36..40] == DataTag && I32(f[40..44]) == 100
  {
    SaveWaveLayout(16000, 1, 16, waveData);
  }

  /**
   * Without overflow the stored average byte rate is rate·bits·channels / 8,
   * truncated toward zero.
   */
  lemma AverageDataRateExact(rate: int32, channels: int32, bits: int32)
    requires -TwoTo31 <= rate * bits * channels < TwoTo31
    ensures var product, avg := rate * bits * channels, AverageDataRate(rate, channels, bits);
      && (0 <= product ==> 0 <= 8 * avg <= product < 8 * avg + 8)
      && (product < 0 ==> 8 * avg - 8 < product <= 8 * avg <= 0)
  {
  }

  /** A stream of two chunks, and when it is framed. */
  lemma PairStream(first: RawChunk, second: RawChunk)
    ensures Stream([first, second]) == ChunkBytes(first) + ChunkBytes(second)
    ensures Framed([first, second]) <==>
      && |first.body| < TwoTo31 && (first.id == FmtTag ==> |first.body| >= PcmSize)
      && |second.body| < TwoTo31 && (second.id == FmtTag ==> |second.body| >= PcmSize)
  {
    var cs := [first, second];
    assert cs[1..] == [second] && cs[1..][1..] == [];
    assert Stream([second]) == ChunkBytes(second) + Stream([]);
    assert Stream(cs) == ChunkBytes(first) + Stream([second]);
    assert Framed([second]) <==> Framed([]) && |second.body| < TwoTo31 && (second.id == FmtTag ==> |second.body| >= PcmSize);
    assert Framed(cs) <==> Framed([second]) && |first.body| < TwoTo31 && (first.id == FmtTag ==> |first.body| >= PcmSize);
  }

  /**
   * Concatenation is associative; a separate step so that the proofs that
   * use it can keep the encoder's definitions hidden.
   */
  lemma ConcatAssoc(x: seq<byte>, y: seq<byte>, z: seq<byte>)
    ensures (x + y) + z == x + (y + z)
  {
  }

  /** The first `|x|` bytes of `x + y` are `x`. */
  lemma PrefixOfConcat(x: seq<byte>, y: seq<byte>)
    ensures (x + y)[..|x|] == x
  {
  }

  /**
   * The encoder's output is a form header followed by the stream of one
   * `fmt ` chunk and one `data` chunk, which is framed exactly when the
   * payload's length fits a non-negative `int`.
   */
  lemma SaveWaveStream(rate: int32, channels: int32, bits: int32, waveData: seq<byte>)
    ensures var form := SaveWave(rate, channels, bits, waveData)[..FormChunkSize];
      var cs := [RawChunk(FmtTag, PcmBytes(EncodedPcm(rate, channels, bits))), RawChunk(DataTag, waveData)];
      && form[..4] == RiffTag && form[8..] == WaveTag
      && (Framed(cs) <==> |waveData| < TwoTo31)
      && SaveWave(rate, channels, bits, waveData) == form + Stream(cs)
  {
    var f := SaveWave(rate, channels, bits, waveData);
    var formLength := ToDword(36 + |waveData|);
    var form := FormChunkBytes(FormChunk(RiffId, formLength, WaveId));
    var pcm := PcmBytes(EncodedPcm(rate, channels, bits));
    var fmtChunk, dataChunk := RawChunk(FmtTag, pcm), RawChunk(DataTag, waveData);
    SaveWaveParts(rate, channels, bits, waveData);
    FormChunkLayout(formLength);
    PairStream(fmtChunk, dataChunk);
    hide SaveWave, FormChunkBytes, PcmBytes, ParsePcm, ParseFormChunk, U16, U32, I32, LeU16, LeU32, LeI32;
    assert ChunkBytes(fmtChunk) == FmtTag + LeI32(PcmSize as int32) + pcm;
    ConcatAssoc(form, ChunkBytes(fmtChunk), ChunkBytes(dataChunk));
    PrefixOfConcat(form, ChunkBytes(fmtChunk) + ChunkBytes(dataChunk));
  }

  /**
   * Decoding what the encoder wrote gives back the rate and payload
   * exactly, and channels and bits reduced to 16 bits, whatever the
   * reference parameters held before.
   */
  lemma SaveWaveDecodes(rate: int32, channels: int32, bits: int32, waveData: seq<byte>, fields: WaveFields)
    requires |waveData| < TwoTo31
    ensures LoadWaveSpec(SaveWave(rate, channels, bits, waveData), fields) ==
      Decoded(true, WaveFields(rate, channels % TwoTo16, bits % TwoTo16, waveData))
  {
    var f := SaveWave(rate, channels, bits, waveData);
    var pcm := PcmBytes(EncodedPcm(rate, channels, bits));
    var fmtChunk, dataChunk := RawChunk(FmtTag, pcm), RawChunk(DataTag, waveData);
    SaveWaveStream(rate, channels, bits, waveData);
    LoadStream(f[..FormChunkSize], [fmtChunk, dataChunk], fields);
    PairFold(fmtChunk, dataChunk, fields);
    assert pcm[..PcmSize] == pcm;
  }

  /** Folding two chunks applies the first, then the second. */
  lemma PairFold(first: RawChunk, second: RawChunk, fields: WaveFields)
    ensures Fold([first, second], fields) == ChunkEffect(second, ChunkEffect(first, fields))
  {
    var cs := [first, second];
    assert cs[1..] == [second] && cs[1..][1..] == [];
    var once := ChunkEffect(first, fields);
    assert Fold([second], once) == Fold([], ChunkEffect(second, once));
    assert Fold(cs, fields) == Fold([second], once);
  }

  /**
   * Round trip: with channels and bits in 16 bits, decoding the encoder's
   * output yields exactly the encoded rate, channels, bits and payload, as
   * long as the payload's length fits a non-negative `int`.
   */
  lemma RoundTrip(rate: int32, channels: int32, bits: int32, waveData: seq<byte>, fields: WaveFields)
    requires 0 <= channels < TwoTo16 && 0 <= bits < TwoTo16
    requires |waveData| < TwoTo31
    ensures LoadWaveSpec(SaveWave(rate, channels, bits, waveData), fields) ==
      Decoded(true, WaveFields(rate, channels, bits, waveData))
  {
    SaveWaveDecodes(rate, channels, bits, waveData, fields);
  }

  /**
   * A chunk whose body is 2^31 to 2^32 - 1 bytes long, written with its
   * length converted to `int`, is read back as a negative length over a
   * rest of the buffer too long for an `int`, whatever its id.
   */
  lemma OverlongChunkStep(c: RawChunk, fields: WaveFields)
    requires TwoTo31 <= |c.body| < TwoTo32
    ensures ChunkStep(ChunkBytes(c), 0, fields) == LengthOverflow
  {
    var buf := ChunkBytes(c);
    var length := ToInt32(|c.body|);
    var headBytes := c.id + LeI32(length);
    assert buf[0..ChunkSize] == headBytes;
    assert headBytes[4..] == LeI32(length);
    var header := ParseChunkHeader(headBytes);
    assert header.length == length;
  }

  /**
   * The encoder's output for a payload of 2^31 to 2^32 - 1 bytes does not
   * decode: the `fmt ` chunk is read, then the `data` chunk's length, which
   * the encoder stored as a negative `int`, fails the call.
   */
  lemma LargePayloadRejected(rate: int32, channels: int32, bits: int32, waveData: seq<byte>, fields: WaveFields)
    requires TwoTo31 <= |waveData| < TwoTo32
    ensures LoadWaveSpec(SaveWave(rate, channels, bits, waveData), fields) ==
      Decoded(false, fields.(rate := rate, channels := channels % TwoTo16, bits := bits % TwoTo16))
  {
    var f := SaveWave(rate, channels, bits, waveData);
    var pcm := PcmBytes(EncodedPcm(rate, channels, bits));
    var fmtChunk, dataChunk := RawChunk(FmtTag, pcm), RawChunk(DataTag, waveData);
    var form := f[..FormChunkSize];
    SaveWaveStream(rate, channels, bits, waveData);
    PairStream(fmtChunk, dataChunk);
    var first, second := ChunkBytes(fmtChunk), ChunkBytes(dataChunk);
    var after := ChunkEffect(fmtChunk, fields);
    assert f == form + (first + second);
    assert pcm[..PcmSize] == pcm;
    assert after == fields.(rate := rate, channels := channels % TwoTo16, bits := bits % TwoTo16);
    hide SaveWave, ChunkBytes, ChunkEffect, ParseFormChunk, ParseChunkHeader, ParsePcm;
    HeaderCheck(f, fields);
    WalkWindow(f, FormChunkSize, fields);
    assert (form + (first + second))[|form|..] == first + second;
    FirstChunkStep(fmtChunk, second, fields);
    WindowWalkUnfold(first + second, fields);
    assert (first + second)[|first|..] == second;
    OverlongChunkStep(dataChunk, after);
    WindowWalkUnfold(second, after);
  }
}
