/** The detection pipeline of `main` in is_mqa.py (lines 42-59) once the audio is
    decoded: the format gate, the channel correlator that builds eight bit-planes
    from left/right sample pairs, and the verdict over those planes. */
module Detection {
  import opened Wrappers
  import opened Bits
  import opened Samples
  import opened Pattern

  /** The two `ValueError`s `main` raises before decoding any sample, and the
      `struct.error` that `struct.iter_unpack` raises on a buffer that is not a
      whole number of records. */
  datatype FormatError =
    | NotStereo         // 'Input must be stereo'
    | UnsupportedWidth  // 'Input must be 16- or 24-bit'
    | PartialSample     // iter_unpack: buffer not a multiple of the record size

  /** The sample decoder `main` picks: `iter_i24_as_i32` or `iter_i16_as_i32`. */
  datatype Decoder = I24 | I16

  /** Bytes per sample the decoder consumes. */
  function Width(d: Decoder): nat
  {
    match d
    case I24 => 3
    case I16 => 2
  }

  /** The channel check, then the width check. */
  function SelectDecoder(nchannels: int, sampwidth: int): (r: Result<Decoder, FormatError>)
    ensures r.Success? <==> nchannels == 2 && (sampwidth == 2 || sampwidth == 3)
    ensures r.Success? ==> Width(r.value) == sampwidth
    ensures nchannels != 2 ==> r == Failure(NotStereo)
    ensures nchannels == 2 && r.Failure? ==> r.error == UnsupportedWidth
  {
    if nchannels != 2 then Failure(NotStereo)
    else if sampwidth == 3 then Success(I24)
    else if sampwidth == 2 then Success(I16)
    else Failure(UnsupportedWidth)
  }

  /** `list(iter_data(sound_data))`: canonical 32-bit samples, interleaved L, R, L, R, … */
  function Decode(d: Decoder, data: seq<Byte>): (r: seq<int>)
    requires |data| % Width(d) == 0
    ensures |r| == |data| / Width(d)
    ensures forall i :: 0 <= i < |r| ==> -0x8000_0000 <= r[i] < 0x8000_0000
  {
    match d
    case I24 => Decode24(data)
    case I16 => Decode16(data)
  }

  /** `s[::2]`: the left channel. */
  function Left(s: seq<int>): (r: seq<int>)
    ensures |r| == (|s| + 1) / 2
    ensures forall i :: 0 <= i < |r| ==> r[i] == s[2 * i]
    decreases |s|
  {
    if |s| == 0 then []
    else if |s| == 1 then [s[0]]
    else [s[0]] + Left(s[2..])
  }

  /** `s[1::2]`: the right channel. */
  function Right(s: seq<int>): (r: seq<int>)
    ensures |r| == |s| / 2
    ensures forall i :: 0 <= i < |r| ==> r[i] == s[2 * i + 1]
  {
    if |s| == 0 then [] else Left(s[1..])
  }

  /** One element of a plane: `(x ^ y) >> p & 1`, which `Bits` reads as a bool.
      It is set exactly when `x` and `y` differ at bit `p`. */
  function PlaneBit(x: int, y: int, p: nat): (b: bool)
    ensures b <==> Bit(x, p) != Bit(y, p)
  {
    XorBit(x, y, p);
    Bit(Xor(x, y), p) == 1
  }

  /** `Bits((x ^ y) >> p & 1 for x, y in zip(left, right))`; `zip` stops at the
      shorter of the two channels. */
  function Plane(left: seq<int>, right: seq<int>, p: nat): (r: seq<bool>)
    ensures |r| == if |left| < |right| then |left| else |right|
    ensures forall i :: 0 <= i < |r| ==> (r[i] <==> Bit(left[i], p) != Bit(right[i], p))
    decreases |left|
  {
    if |left| == 0 || |right| == 0 then []
    else
      [PlaneBit(left[0], right[0], p)] + Plane(left[1..], right[1..], p)
  }

  /** `streams`: the planes for `p` in `range(16, 24)`, in increasing order. */
  function Planes(samples: seq<int>): (planes: seq<seq<bool>>)
    ensures |planes| == 8
    ensures forall j :: 0 <= j < 8 ==> |planes[j]| == |samples| / 2
    ensures forall j, i :: 0 <= j < 8 && 0 <= i < |samples| / 2 ==>
      (planes[j][i] <==> Bit(samples[2 * i], 16 + j) != Bit(samples[2 * i + 1], 16 + j))
  {
    var left := Left(samples);
    var right := Right(samples);
    seq(8, j requires 0 <= j < 8 => Plane(left, right, 16 + j))
  }

  /** `any(s.find(MAGIC) for s in streams)`. `find` answers the tuple `(pos,)`
      or `()`, so a match at offset 0 is a non-empty, hence true, tuple. */
  function AnyFound(planes: seq<seq<bool>>): (found: bool)
    ensures found <==> exists j :: 0 <= j < |planes| && Find(planes[j], Magic).Some?
    decreases |planes|
  {
    MagicValue();
    if |planes| == 0 then false
    else
      var rest := AnyFound(planes[1..]);
      assert forall j :: 1 <= j < |planes| ==> planes[j] == planes[1..][j - 1];
      Find(planes[0], Magic).Some? || rest
  }

  /** What the `wave` reader hands over: the channel count, the sample width in
      bytes and the bytes `readframes` returned. */
  datatype Pcm = Pcm(nchannels: int, sampwidth: int, data: seq<Byte>)

  /** The verdict `main` prints for one file, or the error it raises. A rejected
      file yields neither samples nor a verdict. The gate runs before any byte is
      unpacked; an accepted buffer with a trailing partial sample makes
      `iter_unpack` raise. An odd number of whole samples is decoded, and `zip`
      drops the unpaired last one. */
  function Detect(pcm: Pcm): (r: Result<bool, FormatError>)
    ensures r.Success? <==>
      && pcm.nchannels == 2 && (pcm.sampwidth == 2 || pcm.sampwidth == 3)
      && |pcm.data| % pcm.sampwidth == 0
    ensures pcm.nchannels != 2 ==> r == Failure(NotStereo)
    ensures pcm.nchannels == 2 && pcm.sampwidth != 2 && pcm.sampwidth != 3 ==>
      r == Failure(UnsupportedWidth)
    ensures (pcm.nchannels == 2 && (pcm.sampwidth == 2 || pcm.sampwidth == 3)
             && |pcm.data| % pcm.sampwidth != 0) ==> r == Failure(PartialSample)
  {
    match SelectDecoder(pcm.nchannels, pcm.sampwidth)
    case Failure(e) => Failure(e)
    case Success(d) =>
      if |pcm.data| % Width(d) != 0 then Failure(PartialSample)
      else Success(AnyFound(Planes(Decode(d, pcm.data))))
  }

  /** The per-file loop of the command line: one outcome per file, in order, each
      depending on its own file only, so one file's error does not stop the
      others. */
  function DetectAll(files: seq<Pcm>): (rs: seq<Result<bool, FormatError>>)
    ensures |rs| == |files|
    ensures forall i :: 0 <= i < |files| ==> rs[i] == Detect(files[i])
  {
    if |files| == 0 then [] else [Detect(files[0])] + DetectAll(files[1..])
  }

  /** `zip` drops the unpaired last sample of an odd-length sequence, so it has
      no effect on any plane. */
  lemma UnpairedSampleIgnored(s: seq<int>)
    requires |s| % 2 == 1
    ensures Planes(s) == Planes(s[..|s| - 1])
  {
    var a, b := Planes(s), Planes(s[..|s| - 1]);
    forall j | 0 <= j < 8
      ensures a[j] == b[j]
    {
      assert |a[j]| == |b[j]|;
      forall i | 0 <= i < |a[j]|
        ensures a[j][i] == b[j][i]
      {
        assert s[..|s| - 1][2 * i] == s[2 * i] && s[..|s| - 1][2 * i + 1] == s[2 * i + 1];
      }
    }
  }

  /** Reference definition of a syncword hit, independent of planes and of
      `find`: starting at pair `k`, the 36 consecutive left/right pairs differ
      at bit `p` exactly where the syncword has a one. */
  predicate SyncwordAt(s: seq<int>, p: nat, k: nat)
  {
    && k + |Magic| <= |s| / 2
    && forall t :: 0 <= t < |Magic| ==>
         ((Bit(s[2 * (k + t)], p) != Bit(s[2 * (k + t) + 1], p)) <==> Magic[t])
  }

  /** A plane whose elements compare bit p of each pair holds the syncword at
      offset k exactly when `SyncwordAt` holds. */
  lemma OccursIffPointwise(plane: seq<bool>, s: seq<int>, p: nat, k: nat)
    requires |plane| == |s| / 2
    requires forall i :: 0 <= i < |plane| ==> (plane[i] <==> Bit(s[2 * i], p) != Bit(s[2 * i + 1], p))
    ensures OccursAt(plane, Magic, k) <==> SyncwordAt(s, p, k)
  {
    if SyncwordAt(s, p, k) {
      assert plane[k..k + |Magic|] == Magic;
    }
    if OccursAt(plane, Magic, k) {
      forall t | 0 <= t < |Magic|
        ensures (Bit(s[2 * (k + t)], p) != Bit(s[2 * (k + t) + 1], p)) <==> Magic[t]
      {
        assert plane[k..k + |Magic|][t] == plane[k + t];
      }
    }
  }

  lemma OccursInPlaneIffSyncword(s: seq<int>, j: nat, k: nat)
    requires j < 8
    ensures OccursAt(Planes(s)[j], Magic, k) <==> SyncwordAt(s, 16 + j, k)
  {
    OccursIffPointwise(Planes(s)[j], s, 16 + j, k);
  }

  lemma VerdictFromSyncword(s: seq<int>, p: nat, k: nat)
    requires 16 <= p < 24 && SyncwordAt(s, p, k)
    ensures AnyFound(Planes(s))
  {
    MagicValue();
    var planes := Planes(s);
    OccursInPlaneIffSyncword(s, p - 16, k);
    assert Find(planes[p - 16], Magic).Some?;
  }

  lemma SyncwordFromVerdict(s: seq<int>) returns (p: nat, k: nat)
    requires AnyFound(Planes(s))
    ensures 16 <= p < 24 && SyncwordAt(s, p, k)
  {
    MagicValue();
    var planes := Planes(s);
    var j :| 0 <= j < |planes| && Find(planes[j], Magic).Some?;
    k := Find(planes[j], Magic).value;
    p := 16 + j;
    OccursInPlaneIffSyncword(s, j, k);
  }

  /** The verdict is true exactly when some plane p in 16..23 holds the
      syncword at some pair offset k. */
  lemma VerdictIffSyncword(s: seq<int>)
    ensures AnyFound(Planes(s)) <==> exists p: nat, k: nat :: 16 <= p < 24 && SyncwordAt(s, p, k)
  {
    if AnyFound(Planes(s)) {
      var p, k := SyncwordFromVerdict(s);
    }
    if exists p: nat, k: nat :: 16 <= p < 24 && SyncwordAt(s, p, k) {
      var p: nat, k: nat :| 16 <= p < 24 && SyncwordAt(s, p, k);
      VerdictFromSyncword(s, p, k);
    }
  }

  /** A plane shorter than the syncword never matches; so fewer than 36 sample
      pairs never yield a positive verdict. */
  lemma ShortInputNeverMatches(s: seq<int>)
    requires |s| / 2 < 36
    ensures !AnyFound(Planes(s))
  {
    MagicValue();
    var planes := Planes(s);
    forall j | 0 <= j < 8
      ensures Find(planes[j], Magic).None?
    {
      assert forall k: nat :: !OccursAt(planes[j], Magic, k);
    }
  }

  /** A plane that starts with the syncword is found at offset 0, and that is a
      positive verdict: offset 0 is not mistaken for "not found". */
  lemma MatchAtOffsetZero(s: seq<int>, j: nat)
    requires j < 8
    requires 36 <= |s| / 2 && Planes(s)[j][..36] == Magic
    ensures Find(Planes(s)[j], Magic) == Some(0)
    ensures AnyFound(Planes(s))
  {
    MagicValue();
    assert OccursAt(Planes(s)[j], Magic, 0);
  }

  /** When every left sample equals its right sample, every plane is all zeros;
      the syncword starts with a one, so the verdict is false. */
  lemma IdenticalChannelsNeverMatch(s: seq<int>)
    requires forall i :: 0 <= i < |s| / 2 ==> s[2 * i] == s[2 * i + 1]
    ensures forall j, i :: 0 <= j < 8 && 0 <= i < |s| / 2 ==> !Planes(s)[j][i]
    ensures !AnyFound(Planes(s))
  {
    var planes := Planes(s);
    forall j, i | 0 <= j < 8 && 0 <= i < |s| / 2
      ensures !planes[j][i]
    {
      assert s[2 * i] == s[2 * i + 1];
    }
    forall j | 0 <= j < 8
      ensures Find(planes[j], Magic).None?
    {
      ZeroPlaneHasNoSyncword(planes[j]);
    }
  }

  /** The syncword starts with a one, so a plane of zeros never holds it. */
  lemma ZeroPlaneHasNoSyncword(plane: seq<bool>)
    requires forall i :: 0 <= i < |plane| ==> !plane[i]
    ensures Find(plane, Magic).None?
  {
    MagicValue();
    forall k: nat
      ensures !OccursAt(plane, Magic, k)
    {
      if k + |Magic| <= |plane| {
        assert plane[k..k + |Magic|][0] == plane[k];
      }
    }
  }

  lemma PlaneBitAt(s: seq<int>, j: nat, i: nat)
    requires j < 8 && 2 * i + 1 < |s|
    ensures i < |Planes(s)[j]|
    ensures Planes(s)[j][i] <==> Bit(s[2 * i], 16 + j) != Bit(s[2 * i + 1], 16 + j)
  {
  }

  /** Pair `i` of a 16-bit buffer, as the decoder yields it. */
  lemma Decode16Pair(data: seq<Byte>, i: nat)
    requires |data| % 2 == 0 && 4 * i + 4 <= |data|
    ensures 2 * i + 1 < |Decode16(data)|
    ensures Decode16(data)[2 * i] == Shl(Int16Le(data[4 * i], data[4 * i + 1]), 16)
    ensures Decode16(data)[2 * i + 1] == Shl(Int16Le(data[4 * i + 2], data[4 * i + 3]), 16)
  {
    var s := Decode16(data);
    assert 2 * i + 1 < |s|;
    assert s[2 * i] == Canonical16(data[4 * i], data[4 * i + 1]) by {
      assert 2 * (2 * i) == 4 * i;
    }
    assert s[2 * i + 1] == Canonical16(data[4 * i + 2], data[4 * i + 3]) by {
      assert 2 * (2 * i + 1) == 4 * i + 2;
    }
  }

  /** Pair `i` of a 24-bit buffer, as the decoder yields it. */
  lemma Decode24Pair(data: seq<Byte>, i: nat)
    requires |data| % 3 == 0 && 6 * i + 6 <= |data|
    ensures 2 * i + 1 < |Decode24(data)|
    ensures Decode24(data)[2 * i] == Shl(Signed24(data[6 * i], data[6 * i + 1], data[6 * i + 2]), 8)
    ensures Decode24(data)[2 * i + 1] == Shl(Signed24(data[6 * i + 3], data[6 * i + 4], data[6 * i + 5]), 8)
  {
    var n, m := 2 * i, 2 * i + 1;
    assert 3 * n == 6 * i && 3 * m == 6 * i + 3;
    Decode24At(data, n);
    Decode24At(data, m);
  }

  /** Element i of plane j, given what bit 16+j of each sample of pair i is. */
  lemma PlaneBitOfPair(s: seq<int>, j: nat, i: nat, lbit: int, rbit: int)
    requires j < 8 && 2 * i + 1 < |s|
    requires Bit(s[2 * i], 16 + j) == lbit && Bit(s[2 * i + 1], 16 + j) == rbit
    ensures i < |s| / 2
    ensures Planes(s)[j][i] <==> lbit != rbit
  {
    PlaneBitAt(s, j, i);
  }

  /** Bit 16+j of the samples of pair i of a 16-bit buffer is bit j of the
      original samples. */
  lemma Decode16PairBits(data: seq<Byte>, j: nat, i: nat)
    requires |data| % 2 == 0 && j < 8 && 4 * i + 4 <= |data|
    ensures 2 * i + 1 < |Decode16(data)|
    ensures Bit(Decode16(data)[2 * i], 16 + j) == Bit(Int16Le(data[4 * i], data[4 * i + 1]), j)
    ensures Bit(Decode16(data)[2 * i + 1], 16 + j) == Bit(Int16Le(data[4 * i + 2], data[4 * i + 3]), j)
  {
    Decode16Pair(data, i);
    ShlBit(Decode16(data)[2 * i], Int16Le(data[4 * i], data[4 * i + 1]), 16, j);
    ShlBit(Decode16(data)[2 * i + 1], Int16Le(data[4 * i + 2], data[4 * i + 3]), 16, j);
  }

  /** Bit 16+j of the samples of pair i of a 24-bit buffer is bit 8+j of the
      original samples. */
  lemma Decode24PairBits(data: seq<Byte>, j: nat, i: nat)
    requires |data| % 3 == 0 && j < 8 && 6 * i + 6 <= |data|
    ensures 2 * i + 1 < |Decode24(data)|
    ensures Bit(Decode24(data)[2 * i], 16 + j) == Bit(Signed24(data[6 * i], data[6 * i + 1], data[6 * i + 2]), 8 + j)
    ensures Bit(Decode24(data)[2 * i + 1], 16 + j) == Bit(Signed24(data[6 * i + 3], data[6 * i + 4], data[6 * i + 5]), 8 + j)
  {
    Decode24Pair(data, i);
    ShlBit(Decode24(data)[2 * i], Signed24(data[6 * i], data[6 * i + 1], data[6 * i + 2]), 8, 8 + j);
    ShlBit(Decode24(data)[2 * i + 1], Signed24(data[6 * i + 3], data[6 * i + 4], data[6 * i + 5]), 8, 8 + j);
  }

  /** In a 16-bit file, planes 16..23 read bits 0..7 of the original samples. */
  lemma Planes16ReadLowByte(data: seq<Byte>, j: nat, i: nat)
    requires |data| % 2 == 0 && j < 8 && 4 * i + 4 <= |data|
    ensures i < |Decode16(data)| / 2
    ensures Planes(Decode16(data))[j][i] <==>
      Bit(Int16Le(data[4 * i], data[4 * i + 1]), j) != Bit(Int16Le(data[4 * i + 2], data[4 * i + 3]), j)
  {
    Decode16PairBits(data, j, i);
    PlaneBitOfPair(Decode16(data), j, i,
      Bit(Int16Le(data[4 * i], data[4 * i + 1]), j), Bit(Int16Le(data[4 * i + 2], data[4 * i + 3]), j));
  }

  /** In a 24-bit file, planes 16..23 read bits 8..15 of the original samples. */
  lemma Planes24ReadMiddleByte(data: seq<Byte>, j: nat, i: nat)
    requires |data| % 3 == 0 && j < 8 && 6 * i + 6 <= |data|
    ensures i < |Decode24(data)| / 2
    ensures Planes(Decode24(data))[j][i] <==>
      Bit(Signed24(data[6 * i], data[6 * i + 1], data[6 * i + 2]), 8 + j)
        != Bit(Signed24(data[6 * i + 3], data[6 * i + 4], data[6 * i + 5]), 8 + j)
  {
    Decode24PairBits(data, j, i);
    PlaneBitOfPair(Decode24(data), j, i,
      Bit(Signed24(data[6 * i], data[6 * i + 1], data[6 * i + 2]), 8 + j),
      Bit(Signed24(data[6 * i + 3], data[6 * i + 4], data[6 * i + 5]), 8 + j));
  }

  lemma DetectDecodes16(pcm: Pcm)
    requires pcm.nchannels == 2 && pcm.sampwidth == 2 && |pcm.data| % 2 == 0
    ensures Detect(pcm) == Success(AnyFound(Planes(Decode16(pcm.data))))
  {
    assert SelectDecoder(pcm.nchannels, pcm.sampwidth) == Success(I16);
    assert Decode(I16, pcm.data) == Decode16(pcm.data);
  }

  lemma DetectDecodes24(pcm: Pcm)
    requires pcm.nchannels == 2 && pcm.sampwidth == 3 && |pcm.data| % 3 == 0
    ensures Detect(pcm) == Success(AnyFound(Planes(Decode24(pcm.data))))
  {
    assert SelectDecoder(pcm.nchannels, pcm.sampwidth) == Success(I24);
    assert Decode(I24, pcm.data) == Decode24(pcm.data);
  }

  /** For a 16-bit stereo file the verdict is true exactly when the decoded
      samples carry the syncword in some plane 16..23. */
  lemma Detect16IffSyncword(pcm: Pcm)
    requires pcm.nchannels == 2 && pcm.sampwidth == 2 && |pcm.data| % 2 == 0
    ensures Detect(pcm).Success?
    ensures Detect(pcm).value <==>
      exists p: nat, k: nat :: 16 <= p < 24 && SyncwordAt(Decode16(pcm.data), p, k)
  {
    DetectDecodes16(pcm);
    VerdictIffSyncword(Decode16(pcm.data));
  }

  /** For a 24-bit stereo file the verdict is true exactly when the decoded
      samples carry the syncword in some plane 16..23. */
  lemma Detect24IffSyncword(pcm: Pcm)
    requires pcm.nchannels == 2 && pcm.sampwidth == 3 && |pcm.data| % 3 == 0
    ensures Detect(pcm).Success?
    ensures Detect(pcm).value <==>
      exists p: nat, k: nat :: 16 <= p < 24 && SyncwordAt(Decode24(pcm.data), p, k)
  {
    DetectDecodes24(pcm);
    VerdictIffSyncword(Decode24(pcm.data));
  }

  lemma IdenticalFrames16(data: seq<Byte>)
    requires |data| % 2 == 0
    requires forall f :: 0 <= f && 4 * f + 4 <= |data| ==>
      data[4 * f] == data[4 * f + 2] && data[4 * f + 1] == data[4 * f + 3]
    ensures forall i :: 0 <= i < |Decode16(data)| / 2 ==> Decode16(data)[2 * i] == Decode16(data)[2 * i + 1]
  {
    var s := Decode16(data);
    forall i | 0 <= i < |s| / 2
      ensures s[2 * i] == s[2 * i + 1]
    {
      assert |data| == 2 * |s|;
      Decode16Pair(data, i);
    }
  }

  lemma IdenticalFrames24(data: seq<Byte>)
    requires |data| % 3 == 0
    requires forall f :: 0 <= f && 6 * f + 6 <= |data| ==>
      && data[6 * f] == data[6 * f + 3]
      && data[6 * f + 1] == data[6 * f + 4]
      && data[6 * f + 2] == data[6 * f + 5]
    ensures forall i :: 0 <= i < |Decode24(data)| / 2 ==> Decode24(data)[2 * i] == Decode24(data)[2 * i + 1]
  {
    var s := Decode24(data);
    forall i | 0 <= i < |s| / 2
      ensures s[2 * i] == s[2 * i + 1]
    {
      assert |data| == 3 * |s|;
      Decode24Pair(data, i);
    }
  }

  /** A 16-bit stereo file whose right channel repeats its left channel byte for
      byte yields the verdict "not found". */
  lemma Detect16IdenticalChannels(pcm: Pcm)
    requires pcm.nchannels == 2 && pcm.sampwidth == 2 && |pcm.data| % 2 == 0
    requires forall f :: 0 <= f && 4 * f + 4 <= |pcm.data| ==>
      pcm.data[4 * f] == pcm.data[4 * f + 2] && pcm.data[4 * f + 1] == pcm.data[4 * f + 3]
    ensures Detect(pcm) == Success(false)
  {
    IdenticalFrames16(pcm.data);
    IdenticalChannelsNeverMatch(Decode16(pcm.data));
    DetectDecodes16(pcm);
  }

  /** A 24-bit stereo file whose right channel repeats its left channel byte for
      byte yields the verdict "not found". */
  lemma Detect24IdenticalChannels(pcm: Pcm)
    requires pcm.nchannels == 2 && pcm.sampwidth == 3 && |pcm.data| % 3 == 0
    requires forall f :: 0 <= f && 6 * f + 6 <= |pcm.data| ==>
      && pcm.data[6 * f] == pcm.data[6 * f + 3]
      && pcm.data[6 * f + 1] == pcm.data[6 * f + 4]
      && pcm.data[6 * f + 2] == pcm.data[6 * f + 5]
    ensures Detect(pcm) == Success(false)
  {
    IdenticalFrames24(pcm.data);
    IdenticalChannelsNeverMatch(Decode24(pcm.data));
    DetectDecodes24(pcm);
  }
}
