# WAVEdit core, modelled in Dafny

WAVEdit is a small C command-line tool (`wavedit.c`) that works on the canonical
44-byte RIFF/WAVE PCM header. It reads the header struct from a file, checks
every field except `fileSize` and `dataSize` (`isWAV`), and then reports the format, rewrites the sample rate
in place, or reverses the sample payload frame by frame.

This project models that core:

- `bytes.dfy` (module `Bytes`): `uint16_t`/`uint32_t` as bounded integers,
  their little-endian byte image, and 32-bit unsigned multiplication.
- `header.dfy` (module `WavHeader`): the packed `WAVHeader` struct as a
  datatype, with `Encode` (what `fwrite` writes) and `Decode` (what `fread`
  fills) and both round trips.
- `validation.dfy` (module `Validation`): `isWAV` as written (`Validate`,
  with the 32-bit wrap of its byte-rate product) against the plain
  conjunction `IsWav`, with the first failing check as the reason; and `checkRate`.
- `reversal.dfy` (module `Reversal`): one reversal method for every frame
  width. It replaces `reverse1`/`reverse2`/`reverse3` and is proved against
  the recursive specification `ReversedFrames`.
- `editor.dfy` (module `Editor`): the edit paths of `main`. The struct is a
  class whose set-rate method changes only the two rate fields. The frame-width
  choice and `lengthInSamples` are functions. The two edits, set-rate and
  reverse, act on an in-memory image of the file: header at offset 0, payload
  at offset 44.
- `outcome.dfy` (module `Outcomes`): the pass/fail value that replaces the
  program's `exit(EXIT_FAILURE)` calls.

How the model relates to the code's behaviour:

- The checks run in the code's order: the four tags first, then the numeric fields.
- The set-rate byte rate is computed as the code does,
  `newRate * bitsPerSample / 8 * numberOfChannels` in 32-bit unsigned
  arithmetic. It is proved equal to `newRate * blockAlignment` on valid input.
- In the model, the reverse edit overwrites the whole frames in place and never
  shortens the file, so trailing bytes after the last whole frame stay as they
  were. As written, only `reverse1` does this: `reverse2` and `reverse3` write
  `n * w * w` bytes from offset 44 and so overwrite those bytes and whatever
  follows the payload (see Findings).

## Model

| member | source | states |
|---|---|---|
| `Bytes.Mul32` | wavedit.c:111 | the `unsigned int` product (also used at wavedit.c:223) is the exact product whenever that fits in 32 bits |
| `Bytes.LE32RoundTrip` | wavedit.c:11 | reading a `uint32_t` back from its four little-endian bytes gives the same value |
| `Bytes.FromLE32RoundTrip` | wavedit.c:11 | any four bytes are the little-endian image of the `uint32_t` they decode to |
| `Bytes.LE16RoundTrip` | wavedit.c:15 | reading a `uint16_t` back from its two little-endian bytes gives the same value |
| `Bytes.FromLE16RoundTrip` | wavedit.c:15 | any two bytes are the little-endian image of the `uint16_t` they decode to |
| `WavHeader.Encode` | wavedit.c:138-143 | `writeBack` writes exactly 44 header bytes |
| `WavHeader.EncodeLayout` | wavedit.c:9-23 | each field sits at its packed offset (0,4,8,12,16,20,22,24,28,32,34,36,40), the integers little-endian |
| `WavHeader.Decode` | wavedit.c:71-74 | each field of the struct `fread` fills holds the value whose little-endian image is the bytes at that field's packed offset |
| `WavHeader.DecodeEncode` | wavedit.c:71-74 | `fread` of what `fwrite` wrote gives back the same struct, for every header |
| `WavHeader.EncodeDecode` | wavedit.c:138-143 | `fwrite` of a struct filled by `fread` from 44 bytes reproduces those bytes |
| `Validation.Validate` | wavedit.c:101-115 | accepts exactly when all tags, the fmt chunk size, format, channels, rate, bits, byte rate and block alignment are right; the 32-bit byte-rate product agrees with the exact one; a rejection names a violated check and no earlier check is violated |
| `Validation.ByteRateDoesNotWrap` | wavedit.c:111 | once the rate, depth and channel checks pass, the `unsigned int` byte-rate product does not wrap |
| `Validation.ValidIffNoViolation` | wavedit.c:102-113 | the header is valid exactly when none of the eleven checks is violated, so a single violated check rejects it |
| `Validation.SizesDoNotMatter` | wavedit.c:102-113 | changing only `fileSize` and `dataSize` never changes the verdict |
| `Validation.BlockAlignmentOfValid` | wavedit.c:111-113 | a valid header has block alignment 1, 2 or 4 and byte rate equal to rate times block alignment |
| `Validation.CheckRate` | wavedit.c:123-129 | `checkRate` accepts exactly the rates `isWAV` admits as `samplesPerSecond`, so a valid header given an accepted rate never fails the rate check at wavedit.c:109 |
| `Validation.CanonicalMono8IsValid` | wavedit.c:101-115 | the minimal mono 8-bit 44100 Hz header passes every check |
| `Validation.ThreeChannelsRejected` | wavedit.c:108 | three channels fail the channel check |
| `Validation.FormatTwoRejected` | wavedit.c:107 | audio format 2 fails the format check |
| `Reversal.ReversedFrames` | wavedit.c:161-163 | the output is no longer than the payload and drops less than one frame |
| `Reversal.ReversedFramesLength` | wavedit.c:161-163 | a payload of whole frames keeps its length when reversed |
| `Reversal.ReversedFramesAt` | wavedit.c:161-163 | output frame `j` equals input frame `n-1-j`, bytes inside the frame in order |
| `Reversal.ReversedFramesAppend` | wavedit.c:161-163 | reversing whole frames followed by more bytes reverses each part and swaps them |
| `Reversal.OneFrame` | wavedit.c:161-163 | a single frame is unchanged by reversal |
| `Reversal.ReversedFramesInvolution` | wavedit.c:154-199 | reversing twice with the same width returns the original bytes |
| `Reversal.ReverseFrames` | wavedit.c:154-199 | the two-index loop fills a fresh array with the frames in reverse order and leaves the input array unmodified |
| `Reversal.CopyElement` | wavedit.c:162 | one element assignment copies exactly one `w`-byte frame to the end of the output so far and leaves every other byte of the output unchanged |
| `Reversal.WriteCountAsWritten` | wavedit.c:181 | the byte count the `fwrite` calls (wavedit.c:165, 181, 197) ask for equals the array's `n * w` bytes exactly when there are no frames or frames are one byte wide |
| `Reversal.WriteOverrunsArray` | wavedit.c:181 | the as-written `fwrite` element count asks for at least twice the array's bytes when frames are 2 or 4 bytes |
| `Reversal.OneStereoFrameOverrun` | wavedit.c:181 | for one 4-byte stereo 16-bit frame the as-written `fwrite` asks for 16 bytes |
| `Reversal.ReverseMono8Example` | wavedit.c:154-167 | mono 8-bit bytes 01 02 03 04 reverse to 04 03 02 01 |
| `Reversal.ReverseStereo16Example` | wavedit.c:170-183 | stereo 16-bit frames L1 R1 L2 R2 reverse to L2 R2 L1 R1 with each pair kept whole |
| `Editor.FrameWidth` | wavedit.c:227-236 | the element width `main` picks is 1, 2 or 4 bytes, and for 1 or 2 channels of 8 or 16 bits it is `bitsPerSample / 8 * numberOfChannels` |
| `Editor.FrameWidthIsBlockAlignment` | wavedit.c:227-236 | on a valid header the chosen width is the block alignment: 1 for mono 8-bit, 4 for stereo 16-bit, 2 otherwise |
| `Editor.LengthInSamples` | wavedit.c:226 | the frame count is the largest `n` with `n * blockAlignment <= dataSize` |
| `Editor.LengthInSamplesExample` | wavedit.c:89 | 8000 one-byte frames give a length of 8000 samples |
| `Editor.WithRate` | wavedit.c:222-223 | only `samplesPerSecond` and `bytesPerSecond` change; for 8- or 16-bit depth, 1 or 2 channels and a rate in range the 32-bit byte rate is the exact `newRate * (bitsPerSample / 8) * numberOfChannels` |
| `Editor.SetRateEffect` | wavedit.c:220-224 | on a valid header and accepted rate no 32-bit wrap occurs, the rate becomes `newRate`, the byte rate `newRate * blockAlignment`, all else is kept, and the header stays valid |
| `Editor.CheckRateKeepsValidity` | wavedit.c:123-129 | on a valid header, `checkRate` accepts exactly the rates after which the header is still valid |
| `Editor.SetRateTouchesOnlyRateBytes` | wavedit.c:220-224 | in the rewritten 44 bytes only offsets 24..31 change, and they hold the new rate and byte rate |
| `Editor.RatesOnlyInRateBytes` | wavedit.c:17-18 | the two rate fields occupy offsets 24..31 of the encoding and nothing else |
| `Editor.SetRateExample` | wavedit.c:220-224 | a 44100 Hz stereo 16-bit header set to 22050 Hz gets byte rate 88200 and nothing else changes |
| `Editor.HeaderRecord.Read` | wavedit.c:71-74 | the struct filled from 44 bytes holds the decoded header |
| `Editor.HeaderRecord.Image` | wavedit.c:138-143 | the bytes written back decode to the struct's current fields |
| `Editor.HeaderRecord.SetRate` | wavedit.c:220-224 | fails exactly on an out-of-range rate and then changes nothing; otherwise it sets the two rate fields as the code does, may change no other field, and keeps a valid header valid |
| `Editor.RateEditOutcome` | wavedit.c:209-224 | a rate edit passes exactly when the file holds a 44-byte header that is valid and the rate is in range; a short file is the only `ShortFile` failure, and an invalid header fails as `NotWav` before the rate is looked at |
| `Editor.EditRate` | wavedit.c:209-224 | a rejected rate edit leaves the file untouched; an accepted one rewrites the header, keeps it valid, and changes no byte outside offsets 24..31 |
| `Editor.RateEditImage` | wavedit.c:220-224 | after an accepted rate edit the file image keeps its length, has a valid header, and differs only at offsets 24..31 |
| `Editor.ReadAt` | wavedit.c:158-159 | reading at an offset copies exactly those bytes into a fresh buffer |
| `Editor.WriteAt` | wavedit.c:164-165 | writing at an offset replaces exactly the buffer's length of bytes and keeps the rest |
| `Editor.ReverseSpanOfValid` | wavedit.c:226-236 | on a valid header the chosen width is the positive block alignment and `lengthInSamples` frames of it cover exactly the reversed span |
| `Editor.ReverseInFile` | wavedit.c:154-199 | the payload's first `n` frames of `w` bytes after the header are replaced by their reversal; the header and the bytes after them are kept |
| `Editor.ReversedSpan` | wavedit.c:226-236 | reversal rewrites whole frames only: at most `dataSize` bytes, with less than one frame left over |
| `Editor.ReverseEditOutcome` | wavedit.c:209-236 | a reverse edit passes exactly when the header is present and valid and the file holds all its whole frames, and an invalid header fails as `NotWav` before the payload length is looked at |
| `Editor.EditReverse` | wavedit.c:225-236 | a rejected reverse leaves the file untouched; an accepted one keeps the header and the tail and replaces the whole frames with their reversal |

## Left out

- Command-line glue: `printHelp`, all `printf` output, `invalidFail`/`exit` and the `argc` dispatch of `main`. Failures are `Outcome` values instead.
- The report mode's printout (`printInfo`). Its frame count is `Editor.LengthInSamples`; the floating-point duration is not modelled.
- The `-rate`/`-reverse` flag tests. They use `strcmp(argv[2], " -rate")` as a truth value, so a mode is chosen when the argument does NOT match, and both literals start with a space. The model takes the intended mode directly.
- `atoi` parsing of the rate into `uint32_t`, which wraps negative input. The rate arrives as a `U32`.
- Struct layout on the host. `fread` and `fwrite` copy the struct's memory, so the C code relies on a little-endian host and on the struct having no padding (every field is naturally aligned). The model fixes the little-endian packed layout of the format.
- File access (`fopen`, `fseek`, `fread`, `fwrite`, `fclose`). The file is an in-memory byte array.
- Short reads. In C, a file under 44 bytes, or a payload shorter than its frames, leaves the struct or the array partly uninitialised. The model rejects both cases (`ShortFile`, `ShortPayload`).
- The write count of `reverse1`/`reverse2`/`reverse3` (see Findings). The model performs the intended write of exactly `n * w` bytes at offset 44.
- The stack arrays whose length comes from the file, and the `int` loop index that starts at `lengthInSamples - 1` (it turns negative above 2^31 frames). Both are memory-safety and width concerns outside the model. `Reversal.ReverseFrames` uses unbounded indices.
- Reversal.ReverseFrames: it is proved for every positive frame width, not only the three element types 1, 2 and 4; `main` only ever passes one of those (`Editor.FrameWidthIsBlockAlignment`).

## Findings

| source | as written | input that shows it | evidently intended | confidence | as-written member | corrected member |
|---|---|---|---|---|---|---|
| wavedit.c:181, 197 | `fwrite(reversedArray, sizeof(T), sizeof(reversedArray), file)` passes the array's byte size as its element count; for `int8_t` (wavedit.c:165) the two agree | one stereo 16-bit frame (`n = 1`, `w = 4`): 16 bytes are written from a 4-byte array (`Reversal.OneStereoFrameOverrun`) | write `n * w` bytes, the array's contents, at offset 44 | high (not executed) | `Reversal.WriteOverrunsArray` | `Editor.WriteAt` |
