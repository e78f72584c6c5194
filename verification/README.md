# mqaid detector core, modelled in Dafny

This project models the detection core of `is_mqa.py` from mqaid, a tool that
reports whether a stereo FLAC or WAV file carries an MQA syncword. Once the audio
is decoded to PCM, the detector works in five steps:

1. A format gate checks the channel count and then the sample width.
2. The 16-bit or 24-bit little-endian samples are normalised to signed integers
   whose sign bit sits at bit 31.
3. The interleaved samples are paired as left/right.
4. For each bit position p in 16..23, the bits `(L ^ R) >> p & 1` form one
   bit-plane.
5. Each plane is searched for the 36-bit constant `0xbe0498c88`. The verdict is
   true when any plane contains it.

Files and modules:

- `wrappers.dfy`, module `Wrappers`: the `Option` and `Result` types.
- `bits.dfy`, module `Bits`: Python's `<<`, `>>`, `& 1` and `^` on unbounded
  integers. `Xor` is defined by splitting off the lowest bit, the way two's
  complement works on infinite bit strings. The module proves the facts about
  bits that the detector relies on.
- `samples.dfy`, module `Samples`: `twos_complement` and the two sample
  decoders. It also holds independent encoders of signed samples to
  little-endian bytes, which serve as the decoders' partners in round-trip
  lemmas.
- `pattern.dfy`, module `Pattern`: the syncword built from its hex digits, and
  the contract of `bitstring`'s `find`.
- `detection.dfy`, module `Detection`: the format gate, the left/right split,
  the bit-planes, the verdict, the per-file loop, and the end-to-end lemmas. The
  lemmas compare the verdict with `SyncwordAt`, a definition of a syncword hit
  stated on the samples directly.

Integers are unbounded, just as Python's are. Python's `>>` rounds toward
negative infinity, and for a positive divisor Dafny's Euclidean `/` does the
same. So `Shr` halves repeatedly, and `ShrIsDiv` proves that this equals
division by 2^p.

Two behaviours of the code are worth stating plainly:

- **A match at offset 0 counts as found.** `Bits.find` returns `(pos,)` on a
  match and `()` otherwise, and `(0,)` is a non-empty tuple, hence true. `Find`
  returns `Option<nat>`, and `MatchAtOffsetZero` proves that such a match makes
  the verdict true.
- **A trailing partial sample is an error.** `struct.iter_unpack` raises on a
  buffer that is not a whole number of records. The per-file loop catches it
  like any other exception. `Detect` returns `Failure(PartialSample)` for such a
  buffer. An odd number of whole samples is not an error: `zip` drops the
  unpaired last one (`UnpairedSampleIgnored`).

## Model

| member | source | states |
|---|---|---|
| Bits.Shr | is_mqa.py:55 | `x >> p` is an arithmetic shift: it is negative exactly when x is |
| Bits.Shl | is_mqa.py:17 | `x << s` has its s low bits zero, and dividing it by 2^s gives x back |
| Bits.Xor | is_mqa.py:55 | `x ^ y` is negative exactly when one of x and y is negative and the other is not |
| Bits.ShrIsDiv | is_mqa.py:55 | `x >> p` is floor division of x by 2^p, for every integer x, negative ones included |
| Bits.Bit | is_mqa.py:55 | `x >> p & 1` is always 0 or 1 |
| Bits.XorBit | is_mqa.py:55 | bit p of `x ^ y` is the exclusive or of bit p of x and bit p of y, for all integers and all p |
| Bits.XorSelf | is_mqa.py:55 | `x ^ x == 0`, so equal left and right samples give a zero plane bit |
| Bits.ShlShrBits | is_mqa.py:17-21 | for p >= s, `(v << s) >> p == v >> (p - s)`, so bit p of `v << s` is bit p - s of v |
| Bits.ShlBit | is_mqa.py:17-21 | if x is `v << s` then bit s + j of x is bit j of v |
| Bits.ShlShrRoundTrip | is_mqa.py:17-21 | `(v << s) >> s == v`: the left shift that normalises a sample loses nothing |
| Bits.ShlLowBitsZero | is_mqa.py:17-21 | the s lowest bits of `v << s` are zero |
| Samples.TwosComplement | is_mqa.py:11-13 | `twos_complement(n, bits)` returns either n or n - 2^bits, for every integer n |
| Samples.TwosComplementValue | is_mqa.py:11-13 | on an unsigned n of the given width, `twos_complement` returns n below 2^(bits-1) and n - 2^bits from there on, and the result lies in [-2^(bits-1), 2^(bits-1)) |
| Samples.TwosComplementInverse | is_mqa.py:11-13 | `twos_complement` is the inverse of the unsigned encoding, in both directions |
| Samples.Canonical24 | is_mqa.py:15-17 | the canonical value of bytes b0, b1, b2 is their signed little-endian 24-bit value shifted left by 8; it lies in [-2^31, 2^31), its 8 low bits are zero, and `>> 8` recovers the 24-bit value |
| Samples.Canonical16 | is_mqa.py:19-21 | the canonical value of bytes b0, b1 is their `<h` value shifted left by 16; it lies in [-2^31, 2^31), its 16 low bits are zero, and `>> 16` recovers the signed 16-bit sample |
| Samples.Decode24 | is_mqa.py:15-17 | `iter_i24_as_i32` yields exactly \|data\|/3 values, value i being the canonical value of bytes 3i..3i+2 |
| Samples.Decode16 | is_mqa.py:19-21 | `iter_i16_as_i32` yields exactly \|data\|/2 values, value i being the canonical value of bytes 2i, 2i+1 |
| Samples.Signed24 | is_mqa.py:16-17 | the signed value of three little-endian bytes lies in [-2^23, 2^23) and agrees with their unsigned value modulo 2^24 |
| Samples.Int16Le | is_mqa.py:20 | format `<h` gives a value in [-2^15, 2^15) that agrees with the unsigned value of the two bytes modulo 2^16 |
| Samples.Signed24OfEncode | is_mqa.py:15-17 | the three little-endian bytes of any signed 24-bit sample read back as that sample |
| Samples.Int16LeOfEncode | is_mqa.py:20 | the two little-endian bytes of any signed 16-bit sample read back, by format `<h`, as that sample |
| Samples.Decode24At | is_mqa.py:15-17 | sample n of a 24-bit buffer is the signed value of bytes 3n..3n+2 shifted left by 8 |
| Samples.Decode16At | is_mqa.py:19-21 | sample n of a 16-bit buffer is the signed value of bytes 2n, 2n+1 shifted left by 16 |
| Samples.Canonical24OfEncode | is_mqa.py:15-17 | decoding the little-endian bytes of a signed 24-bit sample v gives `v << 8` |
| Samples.Canonical16OfEncode | is_mqa.py:19-21 | decoding the little-endian bytes of a signed 16-bit sample v gives `v << 16` |
| Samples.Decode24RoundTrip | is_mqa.py:15-17 | the 24-bit decoder maps the encoding of any sequence of 24-bit samples to those samples `<< 8`, in order, and `>> 8` recovers each one |
| Samples.Decode16RoundTrip | is_mqa.py:19-21 | the 16-bit decoder maps the encoding of any sequence of 16-bit samples to those samples `<< 16`, in order, and `>> 16` recovers each one |
| Pattern.HexBits | is_mqa.py:9 | a hex literal gives exactly four bits per digit |
| Pattern.BitsMsbFirstRoundTrip | is_mqa.py:9 | the `width` bits of n, most significant first, spell n back when n < 2^width |
| Pattern.HexBitsValue | is_mqa.py:9 | the bits built from a hex string spell the number its digits denote |
| Pattern.MagicNumber | is_mqa.py:9 | the digits `be0498c88` denote 0xBE0498C88 |
| Pattern.MagicFirstBit | is_mqa.py:9 | the first bit of `MAGIC` is a one |
| Pattern.MagicValue | is_mqa.py:9 | `MAGIC` is 36 bits long, spells 0xBE0498C88 most significant bit first, and its first bit is a one |
| Pattern.FindFrom | is_mqa.py:59 | the search from an offset returns the first contiguous occurrence at or after it, or nothing when there is none |
| Pattern.Find | is_mqa.py:59 | `find` returns Some(k) exactly when k is the first offset where the pattern occurs contiguously; it returns nothing exactly when the pattern occurs nowhere |
| Detection.SelectDecoder | is_mqa.py:42-50 | the gate accepts exactly 2 channels with width 2 or 3, and the decoder it picks reads that many bytes per sample; a non-stereo input is refused as not stereo whatever its width; any other refusal is the unsupported-width error |
| Detection.Decode | is_mqa.py:45-48 | the selected decoder yields \|data\|/width samples, all in [-2^31, 2^31) |
| Detection.Left | is_mqa.py:56 | `s[::2]` has (\|s\|+1)/2 elements, element i being s[2i] |
| Detection.Right | is_mqa.py:56 | `s[1::2]` has \|s\|/2 elements, element i being s[2i+1] |
| Detection.PlaneBit | is_mqa.py:55 | `(x ^ y) >> p & 1` is set exactly when x and y differ at bit p |
| Detection.Plane | is_mqa.py:55-56 | a plane is as long as the shorter channel, because `zip` truncates; element i is set exactly when bit p differs between left[i] and right[i] |
| Detection.Planes | is_mqa.py:55-57 | there are exactly 8 planes, for p = 16..23 in order, each of length \|samples\|/2; element i of plane j is set exactly when bit 16+j of samples[2i] and samples[2i+1] differ |
| Detection.AnyFound | is_mqa.py:59 | the verdict is true exactly when `find` reports a match in some plane |
| Detection.Detect | is_mqa.py:42-59 | a verdict exists exactly for stereo files of width 2 or 3 whose data is a whole number of samples; any other channel count gives the not-stereo error, 2 channels with another width give the unsupported-width error, and an accepted buffer with a trailing partial sample gives the `iter_unpack` error |
| Detection.DetectAll | is_mqa.py:76-80 | the batch gives one outcome per file, in order, and each outcome is the file's own detection result, so an error in one file does not affect the others |
| Detection.UnpairedSampleIgnored | is_mqa.py:55-57 | with an odd number of samples, `zip` drops the last one: the planes equal those of the samples without it |
| Detection.OccursIffPointwise | is_mqa.py:55-59 | for any plane whose element i compares bit p of pair i, the syncword occurs at offset k exactly when `SyncwordAt` holds at p and k |
| Detection.OccursInPlaneIffSyncword | is_mqa.py:55-59 | the syncword occurs at offset k of plane j exactly when `SyncwordAt` holds of the samples at bit 16+j and pair k |
| Detection.VerdictFromSyncword | is_mqa.py:55-59 | a syncword hit at some p in 16..23 makes the verdict true |
| Detection.SyncwordFromVerdict | is_mqa.py:55-59 | a true verdict names a p in 16..23 and an offset k where `SyncwordAt` holds |
| Detection.VerdictIffSyncword | is_mqa.py:55-59 | the verdict is true if and only if some p in 16..23 and some pair offset k carry the syncword |
| Detection.ShortInputNeverMatches | is_mqa.py:59 | with fewer than 36 sample pairs, every plane is shorter than the syncword, and the verdict is false |
| Detection.MatchAtOffsetZero | is_mqa.py:59 | a plane that starts with the syncword is found at offset 0, and that gives a true verdict |
| Detection.IdenticalChannelsNeverMatch | is_mqa.py:55-59 | when every left sample equals its right sample, every plane is all zeros and the verdict is false |
| Detection.ZeroPlaneHasNoSyncword | is_mqa.py:59 | `find` reports no match in a plane of zeros, because the syncword starts with a one |
| Detection.PlaneBitAt | is_mqa.py:55-56 | element i of plane j compares bit 16+j of samples 2i and 2i+1 |
| Detection.PlaneBitOfPair | is_mqa.py:55-56 | element i of plane j is set exactly when the two bits 16+j of pair i differ |
| Detection.Decode16Pair | is_mqa.py:19-21 | pair i of a 16-bit buffer is the two signed samples at bytes 4i..4i+3, each shifted left by 16 |
| Detection.Decode24Pair | is_mqa.py:15-17 | pair i of a 24-bit buffer is the two signed samples at bytes 6i..6i+5, each shifted left by 8 |
| Detection.Decode16PairBits | is_mqa.py:19-21 | bit 16+j of each sample of pair i of a 16-bit buffer is bit j of the original sample |
| Detection.Decode24PairBits | is_mqa.py:15-17 | bit 16+j of each sample of pair i of a 24-bit buffer is bit 8+j of the original sample |
| Detection.Planes16ReadLowByte | is_mqa.py:55-57 | in a 16-bit file, plane 16+j compares bit j of the original left and right samples, so planes 16..23 read bits 0..7 |
| Detection.Planes24ReadMiddleByte | is_mqa.py:55-57 | in a 24-bit file, plane 16+j compares bit 8+j of the original samples, so planes 16..23 read bits 8..15 |
| Detection.DetectDecodes16 | is_mqa.py:45-59 | a stereo 16-bit file is decoded with the 16-bit decoder and always gets a verdict |
| Detection.DetectDecodes24 | is_mqa.py:45-59 | a stereo 24-bit file is decoded with the 24-bit decoder and always gets a verdict |
| Detection.Detect16IffSyncword | is_mqa.py:42-59 | a stereo 16-bit file gets a verdict, and the verdict is true exactly when its decoded samples carry the syncword in some plane 16..23 |
| Detection.Detect24IffSyncword | is_mqa.py:42-59 | a stereo 24-bit file gets a verdict, and the verdict is true exactly when its decoded samples carry the syncword in some plane 16..23 |
| Detection.IdenticalFrames16 | is_mqa.py:19-21 | a 16-bit buffer whose right channel repeats its left channel byte for byte decodes to equal left and right samples |
| Detection.IdenticalFrames24 | is_mqa.py:15-17 | a 24-bit buffer whose right channel repeats its left channel byte for byte decodes to equal left and right samples |
| Detection.Detect16IdenticalChannels | is_mqa.py:42-59 | a 16-bit stereo file whose right channel repeats its left channel byte for byte gets the verdict "not found" |
| Detection.Detect24IdenticalChannels | is_mqa.py:42-59 | a 24-bit stereo file whose right channel repeats its left channel byte for byte gets the verdict "not found" |

## Left out

- Opening the file and `peek` (is_mqa.py:23-31) are file I/O.
- FLAC decoding through the `flac` module (is_mqa.py:33-37) is left out. It is a third-party codec, and the model starts from the PCM it produces.
- `wave.open`, `getparams` and `readframes(framerate)` (is_mqa.py:39-40, 52) are container parsing and I/O. The model takes the channel count, the sample width and the bytes `readframes` returned as inputs. The one-second cap on the amount read and the unused sample rate are therefore not modelled.
- The internals of `bitstring` are left out, because its source is not part of this model. `Bits(...)` on an iterable is modelled as a sequence of booleans, and `find` by its contract: the first contiguous occurrence, or none.
- Coloured console output (is_mqa.py:60-62, 75) is left out. `Detect` returns the verdict that chooses between the two messages.
- Collecting paths from the command line, the recursive `glob('**/*.flac')`, sorting and the `.flac` filter (is_mqa.py:64-73) are filesystem traversal.
- Detection.DetectAll: the per-file `try/except` loop catches every exception, including I/O and codec failures. The model covers only the three errors that `Detect` returns: the two `ValueError`s of the format gate and the `struct.error` of `iter_unpack`.
- Detection.FormatError: the error messages are named by constructors, not stored as text.
