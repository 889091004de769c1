/**
 * The header checks of `isWAV` and `checkRate`. Where the C program prints
 * "Invalid WAV file" and exits, the model returns the check that failed.
 */
module Validation {
  import opened Bytes
  import opened Outcomes
  import opened WavHeader

  const RiffTag: Tag := ['R' as int, 'I' as int, 'F' as int, 'F' as int]
  const WaveTag: Tag := ['W' as int, 'A' as int, 'V' as int, 'E' as int]
  const FmtTag: Tag := ['f' as int, 'm' as int, 't' as int, ' ' as int]
  const DataTag: Tag := ['d' as int, 'a' as int, 't' as int, 'a' as int]

  const MinRate: nat := 1
  const MaxRate: nat := 192000

  /** The sample rates both `isWAV` and `checkRate` admit. */
  predicate RateInRange(r: int) {
    MinRate <= r <= MaxRate
  }

  /**
   * A canonical PCM header: every field condition of `isWAV` holds, stated in
   * exact arithmetic. `strncmp(tag, "RIFF", 4) == 0` against a four-letter
   * literal holds exactly when the four bytes are those letters.
   */
  predicate IsWav(h: Header) {
    && h.riffId == RiffTag
    && h.waveId == WaveTag
    && h.fmtId == FmtTag
    && h.dataId == DataTag
    && h.fmtSize == 16
    && h.dataFormat == 1
    && (h.numberOfChannels == 1 || h.numberOfChannels == 2)
    && RateInRange(h.samplesPerSecond)
    && (h.bitsPerSample == 8 || h.bitsPerSample == 16)
    && h.bytesPerSecond == h.samplesPerSecond * (h.bitsPerSample / 8) * h.numberOfChannels
    && h.blockAlignment == h.bitsPerSample / 8 * h.numberOfChannels
  }

  /** The checks of `isWAV`, one per `invalidFail` call, in the order the C program makes them. */
  datatype Reason =
    | BadRiffId | BadWaveId | BadFmtId | BadDataId
    | BadFmtSize | BadDataFormat | BadChannels | BadRate | BadBits
    | BadBytesPerSecond | BadBlockAlignment

  /** Position of a check in the sequence `isWAV` runs. */
  function Rank(q: Reason): (r: nat)
    ensures r < 11
  {
    match q
    case BadRiffId => 0
    case BadWaveId => 1
    case BadFmtId => 2
    case BadDataId => 3
    case BadFmtSize => 4
    case BadDataFormat => 5
    case BadChannels => 6
    case BadRate => 7
    case BadBits => 8
    case BadBytesPerSecond => 9
    case BadBlockAlignment => 10
  }

  /** The field condition that check `q` guards is false of `h`. */
  predicate Violates(h: Header, q: Reason) {
    match q
    case BadRiffId => h.riffId != RiffTag
    case BadWaveId => h.waveId != WaveTag
    case BadFmtId => h.fmtId != FmtTag
    case BadDataId => h.dataId != DataTag
    case BadFmtSize => h.fmtSize != 16
    case BadDataFormat => h.dataFormat != 1
    case BadChannels => h.numberOfChannels != 1 && h.numberOfChannels != 2
    case BadRate => !RateInRange(h.samplesPerSecond)
    case BadBits => h.bitsPerSample != 8 && h.bitsPerSample != 16
    case BadBytesPerSecond =>
      h.bytesPerSecond != h.samplesPerSecond * (h.bitsPerSample / 8) * h.numberOfChannels
    case BadBlockAlignment => h.blockAlignment != h.bitsPerSample / 8 * h.numberOfChannels
  }

  /**
   * `isWAV` as written: the byte-rate product is an `unsigned int`, so it is
   * taken modulo 2^32. The verdict is that of the conjunction IsWav, and a
   * rejection names the first condition, in the C order, that fails.
   */
  function Validate(h: Header): (r: Outcome<Reason>)
    ensures r.Pass? <==> IsWav(h)
    ensures r.Fail? ==> Violates(h, r.error)
    ensures r.Fail? ==> forall q :: Rank(q) < Rank(r.error) ==> !Violates(h, q)
  {
    if h.riffId != RiffTag then Fail(BadRiffId)
    else if h.waveId != WaveTag then Fail(BadWaveId)
    else if h.fmtId != FmtTag then Fail(BadFmtId)
    else if h.dataId != DataTag then Fail(BadDataId)
    else if h.fmtSize != 16 then Fail(BadFmtSize)
    else if h.dataFormat != 1 then Fail(BadDataFormat)
    else if h.numberOfChannels != 1 && h.numberOfChannels != 2 then Fail(BadChannels)
    else if h.samplesPerSecond < 1 || h.samplesPerSecond > 192000 then Fail(BadRate)
    else if h.bitsPerSample != 8 && h.bitsPerSample != 16 then Fail(BadBits)
    else
      var number := Mul32(Mul32(h.samplesPerSecond, h.bitsPerSample / 8), h.numberOfChannels);
      ByteRateDoesNotWrap(h.samplesPerSecond, h.bitsPerSample, h.numberOfChannels);
      if h.bytesPerSecond != number then Fail(BadBytesPerSecond)
      else if h.blockAlignment != h.bitsPerSample / 8 * h.numberOfChannels then Fail(BadBlockAlignment)
      else Pass
  }

  /** For rates, depths and channel counts that pass the earlier checks the 32-bit product is exact. */
  lemma ByteRateDoesNotWrap(rate: U32, bits: U16, channels: U16)
    requires RateInRange(rate) && (bits == 8 || bits == 16) && (channels == 1 || channels == 2)
    ensures Mul32(Mul32(rate, bits / 8), channels) == rate * (bits / 8) * channels
  {
    var bytes := bits / 8;
    assert bytes == 1 || bytes == 2;
    assert rate * bytes <= 2 * rate;
    assert Mul32(rate, bytes) == rate * bytes;
    assert rate * bytes * channels <= 2 * (rate * bytes);
  }

  /** The header is rejected exactly when some check's condition is violated. */
  lemma ValidIffNoViolation(h: Header)
    ensures IsWav(h) <==> forall q :: !Violates(h, q)
  {
    if !IsWav(h) {
      var r := Validate(h);
      assert Violates(h, r.error);
    }
  }

  /** `isWAV` never looks at `fileSize` or `dataSize`. */
  lemma SizesDoNotMatter(h: Header, fileSize: U32, dataSize: U32)
    ensures Validate(h.(fileSize := fileSize, dataSize := dataSize)) == Validate(h)
  {
  }

  /** A valid header describes frames of 1, 2 or 4 bytes. */
  lemma BlockAlignmentOfValid(h: Header)
    requires IsWav(h)
    ensures h.blockAlignment == 1 || h.blockAlignment == 2 || h.blockAlignment == 4
    ensures h.bytesPerSecond == h.samplesPerSecond * h.blockAlignment
  {
  }

  /**
   * `checkRate`: it passes exactly the rates `isWAV` itself admits in
   * `samplesPerSecond`, so a header given an accepted rate passes that check.
   */
  function CheckRate(newRate: U32): (r: Outcome<()>)
    ensures r.Pass? <==> RateInRange(newRate)
    ensures forall h: Header :: r.Pass? && IsWav(h) ==> Validate(h.(samplesPerSecond := newRate)) != Fail(BadRate)
  {
    if newRate < 1 || newRate > 192000 then Fail(()) else Pass
  }

  /** The minimal canonical header: mono, 8-bit, 44100 Hz, four bytes of samples. */
  function CanonicalMono8(): (h: Header)
    ensures IsWav(h)
  {
    Header(RiffTag, 40, WaveTag, FmtTag, 16, 1, 1, 44100, 44100, 1, 8, DataTag, 4)
  }

  lemma CanonicalMono8IsValid()
    ensures Validate(CanonicalMono8()) == Pass
  {
  }

  lemma ThreeChannelsRejected()
    ensures Validate(CanonicalMono8().(numberOfChannels := 3)) == Fail(BadChannels)
  {
  }

  lemma FormatTwoRejected()
    ensures Validate(CanonicalMono8().(dataFormat := 2)) == Fail(BadDataFormat)
  {
  }
}
