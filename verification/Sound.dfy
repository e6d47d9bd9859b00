/**
 * The Sound asset: rate, channels, bits and payload held in four fields
 * that its methods update in place, with -1 in each scalar meaning "not
 * initialised". Loading and saving go through the codec; loading writes
 * straight into the fields, so it is not all-or-nothing.
 */
module SoundAsset {
  import opened Bytes
  import opened Wave
  import WaveProperties

  datatype Option<T> = None | Some(value: T)

  /** The keys a structured document may carry, each independently present or absent. */
  datatype Document = Document(rate: Option<int32>, channels: Option<int32>, bits: Option<int32>,
                               waveData: Option<seq<byte>>)

  /** The state of a Sound that holds nothing. */
  const Uninitialized: WaveFields := WaveFields(-1, -1, -1, [])

  /** The fields after reading `doc`: each key that is present overwrites its field. */
  function Deserialized(fields: WaveFields, doc: Document): WaveFields
  {
    WaveFields(
      if doc.rate.Some? then doc.rate.value else fields.rate,
      if doc.channels.Some? then doc.channels.value else fields.channels,
      if doc.bits.Some? then doc.bits.value else fields.bits,
      if doc.waveData.Some? then doc.waveData.value else fields.waveData)
  }

  /** A document holding only the rate changes the rate and leaves the rest as it was. */
  lemma RateOnlyDocument(fields: WaveFields, rate: int32)
    ensures Deserialized(fields, Document(Some(rate), None, None, None)) == fields.(rate := rate)
  {
  }

  /** A document holding every key replaces every field, whatever they held. */
  lemma FullDocument(fields: WaveFields, other: WaveFields)
    ensures var doc := Document(Some(other.rate), Some(other.channels), Some(other.bits), Some(other.waveData));
      Deserialized(fields, doc) == other
  {
  }

  /** Reading the same document twice is reading it once. */
  lemma DeserializeIdempotent(fields: WaveFields, doc: Document)
    ensures Deserialized(Deserialized(fields, doc), doc) == Deserialized(fields, doc)
  {
  }

  class Sound {
    var rate: int32
    var channels: int32
    var bits: int32
    var waveData: seq<byte>

    function Fields(): WaveFields
      reads this
    {
      WaveFields(rate, channels, bits, waveData)
    }

    /** Sound(): every scalar -1, no payload. */
    constructor ()
      ensures Fields() == Uninitialized
    {
      rate, channels, bits, waveData := -1, -1, -1, [];
    }

    /**
     * Sound(const std::string &): start uninitialised and load `fileData`;
     * the source throws when loading fails, here the result is `None`.
     */
    static method FromWave(fileData: seq<byte>) returns (sound: Option<Sound>)
      ensures sound.Some? <==> LoadWaveSpec(fileData, Uninitialized).ok
      ensures sound.Some? ==> fresh(sound.value) && sound.value.Fields() == LoadWaveSpec(fileData, Uninitialized).fields
    {
      var s := new Sound();
      var ok := s.Load(fileData);
      if ok {
        sound := Some(s);
      } else {
        sound := None;
      }
    }

    /** Deserialize: only the keys present in `doc` overwrite their fields. */
    method Deserialize(doc: Document)
      modifies this
      ensures Fields() == Deserialized(old(Fields()), doc)
    {
      if doc.rate.Some? {
        rate := doc.rate.value;
      }
      if doc.channels.Some? {
        channels := doc.channels.value;
      }
      if doc.bits.Some? {
        bits := doc.bits.value;
      }
      if doc.waveData.Some? {
        waveData := doc.waveData.value;
      }
    }

    /** InitializeSound: release, then set all four fields. */
    method InitializeSound(newRate: int32, newChannels: int32, newBits: int32, newWaveData: seq<byte>)
      modifies this
      ensures Fields() == WaveFields(newRate, newChannels, newBits, newWaveData)
    {
      Release();
      rate := newRate;
      channels := newChannels;
      bits := newBits;
      waveData := newWaveData;
    }

    /** Release: clear the payload and put -1 back in every scalar. */
    method Release()
      modifies this
      ensures Fields() == Uninitialized
    {
      waveData := [];
      rate := -1;
      channels := -1;
      bits := -1;
    }

    /**
     * Load: decode into the fields themselves. They end as the decoder
     * leaves its reference parameters, which on a form without a `data`
     * chunk means new scalars beside the old payload.
     */
    method Load(fileData: seq<byte>) returns (ok: bool)
      modifies this
      ensures Decoded(ok, Fields()) == LoadWaveSpec(fileData, old(Fields()))
    {
      var result;
      ok, result := LoadWave(fileData, Fields());
      rate, channels, bits, waveData := result.rate, result.channels, result.bits, result.waveData;
    }

    /**
     * Save: encode the fields; it always succeeds. When channels and bits
     * fit in 16 bits and the payload's length in a non-negative `int`,
     * loading the result gives back exactly these fields; a payload of 2^31
     * to 2^32 - 1 bytes gives a buffer that does not load.
     */
    method Save() returns (ok: bool, fileData: seq<byte>)
      ensures ok
      ensures fileData == SaveWave(rate, channels, bits, waveData)
      ensures |fileData| == 44 + |waveData|
      ensures 0 <= channels < TwoTo16 && 0 <= bits < TwoTo16 && |waveData| < TwoTo31 ==>
        forall previous :: LoadWaveSpec(fileData, previous) == Decoded(true, Fields())
      ensures TwoTo31 <= |waveData| < TwoTo32 ==>
        forall previous :: !LoadWaveSpec(fileData, previous).ok
    {
      fileData := SaveWave(rate, channels, bits, waveData);
      ok := true;
      if 0 <= channels < TwoTo16 && 0 <= bits < TwoTo16 && |waveData| < TwoTo31 {
        forall previous: WaveFields
          ensures LoadWaveSpec(fileData, previous) == Decoded(true, Fields())
        {
          WaveProperties.RoundTrip(rate, channels, bits, waveData, previous);
        }
      }
      if TwoTo31 <= |waveData| < TwoTo32 {
        forall previous: WaveFields
          ensures !LoadWaveSpec(fileData, previous).ok
        {
          WaveProperties.LargePayloadRejected(rate, channels, bits, waveData, previous);
        }
      }
    }
  }
}
