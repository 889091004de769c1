/**
 * The editing paths of `main`: the set-rate edit of the header struct and
 * the frame-width choice and frame count of the reverse edit, applied to an
 * in-memory image of the file (header at offset 0, payload at offset 44).
 */
module Editor {
  import opened Bytes
  import opened Outcomes
  import opened WavHeader
  import opened Validation
  import opened Reversal

  /** Why an edit stops before writing anything. */
  datatype EditError =
    | ShortFile                 // fewer than 44 bytes: no header to read
    | NotWav(reason: Reason)    // `isWAV` rejects the header
    | RateOutOfRange            // `checkRate` rejects the new rate
    | ShortPayload              // fewer payload bytes than the frames to reverse

  /** Frame width the C program picks: `int8_t`, `int32_t` or `int16_t` elements. */
  function FrameWidth(channels: U16, bits: U16): (w: nat)
    ensures w == 1 || w == 2 || w == 4
    ensures (channels == 1 || channels == 2) && (bits == 8 || bits == 16) ==> w == bits / 8 * channels
  {
    if channels == 1 && bits == 8 then 1
    else if channels == 2 && bits == 16 then 4
    else 2
  }

  /** On a valid header the chosen element width is exactly the frame size. */
  lemma FrameWidthIsBlockAlignment(h: Header)
    requires IsWav(h)
    ensures FrameWidth(h.numberOfChannels, h.bitsPerSample) == h.blockAlignment
    ensures h.numberOfChannels == 1 && h.bitsPerSample == 8 ==> h.blockAlignment == 1
    ensures h.numberOfChannels == 2 && h.bitsPerSample == 16 ==> h.blockAlignment == 4
    ensures (!(h.numberOfChannels == 1 && h.bitsPerSample == 8)
             && !(h.numberOfChannels == 2 && h.bitsPerSample == 16)) ==> h.blockAlignment == 2
  {
  }

  /** `lengthInSamples = dataSize / blockAlignment`: the whole frames the payload holds. */
  function LengthInSamples(h: Header): (n: nat)
    requires h.blockAlignment != 0
    ensures n * h.blockAlignment <= h.dataSize < (n + 1) * h.blockAlignment
  {
    var n := h.dataSize / h.blockAlignment;
    assert h.dataSize == n * h.blockAlignment + h.dataSize % h.blockAlignment;
    assert (n + 1) * h.blockAlignment == n * h.blockAlignment + h.blockAlignment;
    n
  }

  /** 8000 one-byte frames at 8000 Hz: the report counts 8000 samples. */
  lemma LengthInSamplesExample()
    ensures LengthInSamples(CanonicalMono8().(samplesPerSecond := 8000, bytesPerSecond := 8000, dataSize := 8000)) == 8000
  {
  }

  /**
   * The two assignments of the set-rate branch, in 32-bit unsigned arithmetic:
   * `bytesPerSecond = newRate * bitsPerSample / 8 * numberOfChannels`.
   */
  function WithRate(h: Header, newRate: U32): (r: Header)
    ensures r == h.(samplesPerSecond := newRate, bytesPerSecond := r.bytesPerSecond)
    ensures RateInRange(newRate) && (h.bitsPerSample == 8 || h.bitsPerSample == 16)
            && (h.numberOfChannels == 1 || h.numberOfChannels == 2)
            ==> r.bytesPerSecond == newRate * (h.bitsPerSample / 8) * h.numberOfChannels
  {
    var bits, channels := h.bitsPerSample, h.numberOfChannels;
    var product := Mul32(newRate, bits);
    var bytesPerSecond := Mul32(product / 8, channels);
    assert RateInRange(newRate) && (bits == 8 || bits == 16) && (channels == 1 || channels == 2)
           ==> bytesPerSecond == newRate * (bits / 8) * channels by {
      if RateInRange(newRate) && (bits == 8 || bits == 16) && (channels == 1 || channels == 2) {
        assert newRate * bits == newRate * 8 || newRate * bits == newRate * 16;
        assert product == newRate * bits;
        assert product / 8 == newRate * (bits / 8);
        assert newRate * (bits / 8) * channels <= 4 * newRate;
      }
    }
    h.(samplesPerSecond := newRate, bytesPerSecond := bytesPerSecond)
  }

  /**
   * On a valid header and an accepted rate the 32-bit arithmetic does not wrap:
   * the rate becomes `newRate`, the byte rate `newRate * blockAlignment`, every
   * other field is kept, and the header stays valid.
   */
  lemma SetRateEffect(h: Header, newRate: U32)
    requires IsWav(h) && RateInRange(newRate)
    ensures newRate * h.blockAlignment < 0x1_0000_0000
    ensures WithRate(h, newRate) == h.(samplesPerSecond := newRate, bytesPerSecond := newRate * h.blockAlignment)
    ensures IsWav(WithRate(h, newRate))
  {
    var bits, channels := h.bitsPerSample, h.numberOfChannels;
    assert h.blockAlignment == (bits / 8) * channels;
    assert newRate * (bits / 8) * channels == newRate * h.blockAlignment;
    assert newRate * h.blockAlignment <= 4 * newRate;
  }

  /** `checkRate` admits exactly the rates that leave a valid header valid. */
  lemma CheckRateKeepsValidity(h: Header, newRate: U32)
    requires IsWav(h)
    ensures CheckRate(newRate).Pass? <==> IsWav(WithRate(h, newRate))
  {
    if RateInRange(newRate) {
      SetRateEffect(h, newRate);
    }
  }

  /** In the written-back 44 bytes only offsets 24..31 (the two rates) change. */
  lemma SetRateTouchesOnlyRateBytes(h: Header, newRate: U32)
    requires IsWav(h) && RateInRange(newRate)
    ensures newRate * h.blockAlignment < 0x1_0000_0000
    ensures var before, after := Encode(h), Encode(WithRate(h, newRate));
      && after[..24] == before[..24]
      && after[24..28] == LE32(newRate)
      && after[28..32] == LE32(newRate * h.blockAlignment)
      && after[32..] == before[32..]
  {
    SetRateEffect(h, newRate);
    RatesOnlyInRateBytes(h, newRate, newRate * h.blockAlignment);
  }

  /** Headers that differ only in the two rate fields encode alike outside offsets 24..31. */
  lemma RatesOnlyInRateBytes(h: Header, rate: U32, byteRate: U32)
    ensures var before, after := Encode(h), Encode(h.(samplesPerSecond := rate, bytesPerSecond := byteRate));
      && after[..24] == before[..24]
      && after[24..28] == LE32(rate)
      && after[28..32] == LE32(byteRate)
      && after[32..] == before[32..]
  {
    var g := h.(samplesPerSecond := rate, bytesPerSecond := byteRate);
    var pre := h.riffId + LE32(h.fileSize) + h.waveId + h.fmtId + LE32(h.fmtSize)
      + LE16(h.dataFormat) + LE16(h.numberOfChannels);
    var suf := LE16(h.blockAlignment) + LE16(h.bitsPerSample) + h.dataId + LE32(h.dataSize);
    EncodeAroundRates(h, pre, suf);
    EncodeAroundRates(g, pre, suf);
  }

  /** The encoding is the 24 bytes before the rates, the two rates, and the 12 bytes after. */
  lemma EncodeAroundRates(h: Header, pre: seq<Byte>, suf: seq<Byte>)
    requires pre == h.riffId + LE32(h.fileSize) + h.waveId + h.fmtId + LE32(h.fmtSize)
      + LE16(h.dataFormat) + LE16(h.numberOfChannels)
    requires suf == LE16(h.blockAlignment) + LE16(h.bitsPerSample) + h.dataId + LE32(h.dataSize)
    ensures var b := Encode(h);
      && b[..24] == pre && b[24..28] == LE32(h.samplesPerSecond)
      && b[28..32] == LE32(h.bytesPerSecond) && b[32..] == suf
  {
    var b := Encode(h);
    assert b == pre + LE32(h.samplesPerSecond) + LE32(h.bytesPerSecond) + suf;
  }

  /** A 44100 Hz stereo 16-bit header set to 22050 Hz gets a byte rate of 88200. */
  lemma SetRateExample()
    ensures var h := CanonicalMono8().(numberOfChannels := 2, bitsPerSample := 16,
                                       bytesPerSecond := 176400, blockAlignment := 4);
      && IsWav(h)
      && WithRate(h, 22050) == h.(samplesPerSecond := 22050, bytesPerSecond := 88200)
  {
  }

  /** The struct `main` reads, checks and, for a rate edit, changes in place. */
  class HeaderRecord {
    var riffId: Tag
    var fileSize: U32
    var waveId: Tag
    var fmtId: Tag
    var fmtSize: U32
    var dataFormat: U16
    var numberOfChannels: U16
    var samplesPerSecond: U32
    var bytesPerSecond: U32
    var blockAlignment: U16
    var bitsPerSample: U16
    var dataId: Tag
    var dataSize: U32

    /** The field values as a header value. */
    function Value(): (h: Header)
      reads this
    {
      Header(riffId, fileSize, waveId, fmtId, fmtSize, dataFormat, numberOfChannels,
             samplesPerSecond, bytesPerSecond, blockAlignment, bitsPerSample, dataId, dataSize)
    }

    /** `readFile`: one `fread` of the 44 header bytes into the struct. */
    constructor Read(bytes: seq<Byte>)
      requires |bytes| == HeaderSize
      ensures Value() == Decode(bytes)
    {
      var h := Decode(bytes);
      riffId, fileSize, waveId, fmtId, fmtSize := h.riffId, h.fileSize, h.waveId, h.fmtId, h.fmtSize;
      dataFormat, numberOfChannels := h.dataFormat, h.numberOfChannels;
      samplesPerSecond, bytesPerSecond := h.samplesPerSecond, h.bytesPerSecond;
      blockAlignment, bitsPerSample := h.blockAlignment, h.bitsPerSample;
      dataId, dataSize := h.dataId, h.dataSize;
    }

    /** The 44 bytes `writeBack` writes: reading them again gives this struct. */
    method Image() returns (bytes: seq<Byte>)
      ensures |bytes| == HeaderSize && Decode(bytes) == Value()
      ensures bytes == Encode(Value())
    {
      bytes := Encode(Value());
      DecodeEncode(Value());
    }

    /**
     * The set-rate branch: `checkRate`, then the two field assignments. Only
     * the two rate fields may change, and only when the rate is accepted.
     */
    method SetRate(newRate: U32) returns (outcome: Outcome<()>)
      modifies this`samplesPerSecond, this`bytesPerSecond
      ensures outcome.Fail? <==> !RateInRange(newRate)
      ensures Value() == if outcome.Pass? then WithRate(old(Value()), newRate) else old(Value())
      ensures old(IsWav(Value())) ==> IsWav(Value())
    {
      outcome := CheckRate(newRate);
      if outcome.Pass? {
        ghost var h := Value();
        samplesPerSecond := newRate;
        bytesPerSecond := Mul32(Mul32(newRate, bitsPerSample) / 8, numberOfChannels);
        if IsWav(h) {
          SetRateEffect(h, newRate);
        }
      }
    }
  }

  /** The checks a rate edit passes, in the order `main` makes them. */
  function RateEditOutcome(image: seq<Byte>, newRate: U32): (r: Outcome<EditError>)
    ensures r.Pass? <==> |image| >= HeaderSize && IsWav(Decode(image[..HeaderSize])) && RateInRange(newRate)
    ensures r == Fail(ShortFile) <==> |image| < HeaderSize
    ensures |image| >= HeaderSize && !IsWav(Decode(image[..HeaderSize])) ==> r.Fail? && r.error.NotWav?
  {
    if |image| < HeaderSize then Fail(ShortFile)
    else
      var verdict := Validate(Decode(image[..HeaderSize]));
      if verdict.Fail? then Fail(NotWav(verdict.error))
      else if CheckRate(newRate).Fail? then Fail(RateOutOfRange)
      else Pass
  }

  /**
   * Set-rate on a file image: read and check the header, check the rate, and
   * overwrite the 44 header bytes. A rejected edit writes nothing; an accepted
   * one changes only the bytes at offsets 24..31 and leaves a valid header.
   */
  method EditRate(file: array<Byte>, newRate: U32) returns (outcome: Outcome<EditError>)
    modifies file
    ensures outcome == RateEditOutcome(old(file[..]), newRate)
    ensures outcome.Fail? ==> file[..] == old(file[..])
    ensures outcome.Pass? ==>
      file[..] == Encode(WithRate(Decode(old(file[..HeaderSize])), newRate)) + old(file[HeaderSize..])
    ensures outcome.Pass? ==> IsWav(Decode(file[..HeaderSize]))
    ensures outcome.Pass? ==>
      forall i :: 0 <= i < file.Length && !(24 <= i < 32) ==> file[i] == old(file[i])
  {
    if file.Length < HeaderSize {
      return Fail(ShortFile);
    }
    var header := new HeaderRecord.Read(file[..HeaderSize]);
    var verdict := Validate(header.Value());
    if verdict.Fail? {
      return Fail(NotWav(verdict.error));
    }
    var checked := header.SetRate(newRate);
    if checked.Fail? {
      return Fail(RateOutOfRange);
    }
    var bytes := header.Image();
    ghost var was := old(file[..]);
    forall t | 0 <= t < HeaderSize {
      file[t] := bytes[t];
    }
    outcome := Pass;
    assert file[..] == bytes + was[HeaderSize..];
    assert was[..HeaderSize] == old(file[..HeaderSize]);
    RateEditImage(was, newRate);
  }

  /**
   * The file image after an accepted rate edit differs from the old one only
   * at offsets 24..31, and its header is valid.
   */
  lemma RateEditImage(was: seq<Byte>, newRate: U32)
    requires |was| >= HeaderSize && IsWav(Decode(was[..HeaderSize])) && RateInRange(newRate)
    ensures var after := Encode(WithRate(Decode(was[..HeaderSize]), newRate)) + was[HeaderSize..];
      && |after| == |was|
      && after[..HeaderSize] == Encode(WithRate(Decode(was[..HeaderSize]), newRate))
      && IsWav(Decode(after[..HeaderSize]))
      && forall i :: 0 <= i < |was| && !(24 <= i < 32) ==> after[i] == was[i]
  {
    var h := Decode(was[..HeaderSize]);
    var bytes := Encode(WithRate(h, newRate));
    var after := bytes + was[HeaderSize..];
    assert after[..HeaderSize] == bytes;
    SetRateEffect(h, newRate);
    DecodeEncode(WithRate(h, newRate));
    SetRateTouchesOnlyRateBytes(h, newRate);
    EncodeDecode(was[..HeaderSize]);
    forall i | 0 <= i < |was| && !(24 <= i < 32)
      ensures after[i] == was[i]
    {
      if i < 24 {
        assert after[i] == bytes[..24][i] && was[i] == was[..HeaderSize][..24][i];
      } else if i < HeaderSize {
        assert after[i] == bytes[32..][i - 32] && was[i] == was[..HeaderSize][32..][i - 32];
      }
    }
  }

  /** `fseek` to `offset`, then `fread` of `count` bytes into a fresh buffer. */
  method ReadAt(file: array<Byte>, offset: nat, count: nat) returns (buffer: array<Byte>)
    requires offset + count <= file.Length
    ensures fresh(buffer)
    ensures buffer[..] == file[offset..offset + count]
  {
    buffer := new Byte[count];
    forall t | 0 <= t < count {
      buffer[t] := file[offset + t];
    }
  }

  /** `fseek` to `offset`, then `fwrite` of the whole buffer over the bytes there. */
  method WriteAt(file: array<Byte>, offset: nat, buffer: array<Byte>)
    requires offset + buffer.Length <= file.Length
    requires buffer != file
    modifies file
    ensures file[..] == old(file[..offset]) + buffer[..] + old(file[offset + buffer.Length..])
  {
    forall t | 0 <= t < buffer.Length {
      file[offset + t] := buffer[t];
    }
  }

  /** Bytes the reverse edit rewrites: the whole frames of the payload. */
  function ReversedSpan(h: Header): (span: nat)
    requires IsWav(h)
    ensures span <= h.dataSize && h.dataSize - span < h.blockAlignment
  {
    FrameWidthIsBlockAlignment(h);
    LengthInSamples(h) * FrameWidth(h.numberOfChannels, h.bitsPerSample)
  }

  /** On a valid header `main`'s frame count and element width span exactly the whole frames. */
  lemma ReverseSpanOfValid(h: Header, n: nat, w: nat)
    requires IsWav(h)
    requires n == LengthInSamples(h) && w == FrameWidth(h.numberOfChannels, h.bitsPerSample)
    ensures w == h.blockAlignment && w > 0
    ensures n * w == ReversedSpan(h)
  {
    FrameWidthIsBlockAlignment(h);
    BlockAlignmentOfValid(h);
  }

  /** The checks a reverse edit passes, in the order `main` makes them. */
  function ReverseEditOutcome(image: seq<Byte>): (r: Outcome<EditError>)
    ensures r.Pass? <==> |image| >= HeaderSize && IsWav(Decode(image[..HeaderSize]))
                         && HeaderSize + ReversedSpan(Decode(image[..HeaderSize])) <= |image|
    ensures r == Fail(ShortFile) <==> |image| < HeaderSize
    ensures |image| >= HeaderSize && !IsWav(Decode(image[..HeaderSize])) ==> r.Fail? && r.error.NotWav?
  {
    if |image| < HeaderSize then Fail(ShortFile)
    else
      var h := Decode(image[..HeaderSize]);
      var verdict := Validate(h);
      if verdict.Fail? then Fail(NotWav(verdict.error))
      else if HeaderSize + ReversedSpan(h) > |image| then Fail(ShortPayload)
      else Pass
  }

  /**
   * `reverse1`, `reverse2` and `reverse3` on a file image: read the `n` frames
   * of `w` bytes after the header, reverse them into a fresh array and write
   * that back over them at offset 44.
   */
  method ReverseInFile(file: array<Byte>, n: nat, w: nat)
    requires w > 0 && HeaderSize + n * w <= file.Length
    modifies file
    ensures file[..] == old(file[..HeaderSize])
                        + ReversedFrames(old(file[HeaderSize..HeaderSize + n * w]), w)
                        + old(file[HeaderSize + n * w..])
  {
    ghost var was := file[..];
    var span := n * w;
    var data := ReadAt(file, HeaderSize, span);
    var reversed := ReverseFrames(data, n, w);
    assert reversed[..] == ReversedFrames(was[HeaderSize..HeaderSize + span], w);
    WriteAt(file, HeaderSize, reversed);
    assert file[..] == was[..HeaderSize] + reversed[..] + was[HeaderSize + span..];
  }

  /**
   * Reverse on a file image: check the header, pick the frame width, read the
   * `lengthInSamples` whole frames after the header, reverse them into a
   * fresh array and write that back at offset 44. The header and any bytes
   * after the last whole frame are left as they were.
   */
  method EditReverse(file: array<Byte>) returns (outcome: Outcome<EditError>)
    modifies file
    ensures outcome == ReverseEditOutcome(old(file[..]))
    ensures outcome.Fail? ==> file[..] == old(file[..])
    ensures outcome.Pass? ==>
      var h := Decode(old(file[..HeaderSize]));
      var end := HeaderSize + ReversedSpan(h);
      && end <= file.Length
      && file[..] == old(file[..HeaderSize])
           + ReversedFrames(old(file[HeaderSize..end]), h.blockAlignment)
           + old(file[end..])
  {
    if file.Length < HeaderSize {
      return Fail(ShortFile);
    }
    var h := Decode(file[..HeaderSize]);
    var verdict := Validate(h);
    if verdict.Fail? {
      return Fail(NotWav(verdict.error));
    }
    var n := LengthInSamples(h);
    var w := FrameWidth(h.numberOfChannels, h.bitsPerSample);
    ReverseSpanOfValid(h, n, w);
    if HeaderSize + n * w > file.Length {
      return Fail(ShortPayload);
    }
    ReverseInFile(file, n, w);
    outcome := Pass;
  }
}
