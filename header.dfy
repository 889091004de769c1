/**
 * The canonical 44-byte RIFF/WAVE PCM header (struct WAVHeader) and the byte
 * image that `fread` fills and `fwrite` writes: thirteen packed fields, the
 * integers little-endian.
 */
module WavHeader {
  import opened Bytes

  /** A four-character chunk tag such as "RIFF". */
  type Tag = s: seq<Byte> | |s| == 4 witness [0, 0, 0, 0]

  /** The size of the packed struct, `sizeof(WAVHeader)`. */
  const HeaderSize: nat := 44

  datatype Header = Header(
    riffId: Tag,
    fileSize: U32,
    waveId: Tag,
    fmtId: Tag,
    fmtSize: U32,
    dataFormat: U16,
    numberOfChannels: U16,
    samplesPerSecond: U32,
    bytesPerSecond: U32,
    blockAlignment: U16,
    bitsPerSample: U16,
    dataId: Tag,
    dataSize: U32)

  /** The bytes that `fwrite(header, sizeof(*header), 1, file)` writes. */
  function Encode(h: Header): (b: seq<Byte>)
    ensures |b| == HeaderSize
  {
    h.riffId + LE32(h.fileSize) + h.waveId + h.fmtId + LE32(h.fmtSize)
    + LE16(h.dataFormat) + LE16(h.numberOfChannels)
    + LE32(h.samplesPerSecond) + LE32(h.bytesPerSecond)
    + LE16(h.blockAlignment) + LE16(h.bitsPerSample)
    + h.dataId + LE32(h.dataSize)
  }

  /**
   * The struct that `fread(header, sizeof(*header), 1, file)` fills from 44
   * bytes: each field holds the value whose little-endian image is the bytes
   * at its packed offset.
   */
  function Decode(b: seq<Byte>): (h: Header)
    requires |b| == HeaderSize
    ensures && h.riffId == b[0..4]
            && LE32(h.fileSize) == b[4..8]
            && h.waveId == b[8..12]
            && h.fmtId == b[12..16]
            && LE32(h.fmtSize) == b[16..20]
            && LE16(h.dataFormat) == b[20..22]
            && LE16(h.numberOfChannels) == b[22..24]
            && LE32(h.samplesPerSecond) == b[24..28]
            && LE32(h.bytesPerSecond) == b[28..32]
            && LE16(h.blockAlignment) == b[32..34]
            && LE16(h.bitsPerSample) == b[34..36]
            && h.dataId == b[36..40]
            && LE32(h.dataSize) == b[40..44]
  {
    FromLE32RoundTrip(b[4..8]);
    FromLE32RoundTrip(b[16..20]);
    FromLE16RoundTrip(b[20..22]);
    FromLE16RoundTrip(b[22..24]);
    FromLE32RoundTrip(b[24..28]);
    FromLE32RoundTrip(b[28..32]);
    FromLE16RoundTrip(b[32..34]);
    FromLE16RoundTrip(b[34..36]);
    FromLE32RoundTrip(b[40..44]);
    Header(
      b[0..4], FromLE32(b[4..8]), b[8..12], b[12..16], FromLE32(b[16..20]),
      FromLE16(b[20..22]), FromLE16(b[22..24]),
      FromLE32(b[24..28]), FromLE32(b[28..32]),
      FromLE16(b[32..34]), FromLE16(b[34..36]),
      b[36..40], FromLE32(b[40..44]))
  }

  /** Each field of the encoding sits at the offset of the packed struct. */
  lemma EncodeLayout(h: Header)
    ensures var b := Encode(h);
      && b[0..4] == h.riffId
      && b[4..8] == LE32(h.fileSize)
      && b[8..12] == h.waveId
      && b[12..16] == h.fmtId
      && b[16..20] == LE32(h.fmtSize)
      && b[20..22] == LE16(h.dataFormat)
      && b[22..24] == LE16(h.numberOfChannels)
      && b[24..28] == LE32(h.samplesPerSecond)
      && b[28..32] == LE32(h.bytesPerSecond)
      && b[32..34] == LE16(h.blockAlignment)
      && b[34..36] == LE16(h.bitsPerSample)
      && b[36..40] == h.dataId
      && b[40..44] == LE32(h.dataSize)
  {
  }

  /** Reading back what was written gives the same struct. */
  lemma DecodeEncode(h: Header)
    ensures Decode(Encode(h)) == h
  {
    EncodeLayout(h);
    LE32RoundTrip(h.fileSize);
    LE32RoundTrip(h.fmtSize);
    LE16RoundTrip(h.dataFormat);
    LE16RoundTrip(h.numberOfChannels);
    LE32RoundTrip(h.samplesPerSecond);
    LE32RoundTrip(h.bytesPerSecond);
    LE16RoundTrip(h.blockAlignment);
    LE16RoundTrip(h.bitsPerSample);
    LE32RoundTrip(h.dataSize);
  }

  /** Writing back a struct read from 44 bytes reproduces those bytes. */
  lemma EncodeDecode(b: seq<Byte>)
    requires |b| == HeaderSize
    ensures Encode(Decode(b)) == b
  {
    var h := Decode(b);
    EncodeLayout(h);
    var e := Encode(h);
    forall i | 0 <= i < HeaderSize
      ensures e[i] == b[i]
    {
      if i < 4 { assert e[i] == e[0..4][i]; }
      else if i < 8 { assert e[i] == e[4..8][i - 4]; }
      else if i < 12 { assert e[i] == e[8..12][i - 8]; }
      else if i < 16 { assert e[i] == e[12..16][i - 12]; }
      else if i < 20 { assert e[i] == e[16..20][i - 16]; }
      else if i < 22 { assert e[i] == e[20..22][i - 20]; }
      else if i < 24 { assert e[i] == e[22..24][i - 22]; }
      else if i < 28 { assert e[i] == e[24..28][i - 24]; }
      else if i < 32 { assert e[i] == e[28..32][i - 28]; }
      else if i < 34 { assert e[i] == e[32..34][i - 32]; }
      else if i < 36 { assert e[i] == e[34..36][i - 34]; }
      else if i < 40 { assert e[i] == e[36..40][i - 36]; }
      else { assert e[i] == e[40..44][i - 40]; }
    }
  }
}
