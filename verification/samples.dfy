/** Sample normalisation (is_mqa.py lines 11-21): little-endian PCM bytes become
    signed integers shifted left so that the sample's sign bit sits at bit 31. */
module Samples {
  import opened Bits

  type Byte = x: int | 0 <= x < 256

  lemma Pow2Values()
    ensures Pow2(8) == 0x100 && Pow2(15) == 0x8000 && Pow2(16) == 0x1_0000
    ensures Pow2(23) == 0x80_0000 && Pow2(24) == 0x100_0000
  {
  }

  /** `twos_complement(n, bits)`: with `mask = 2 ** (bits - 1)`, `n & mask` keeps
      bit `bits - 1` of `n` and `n & ~mask` is `n` with that bit cleared; the
      result is `-(n & mask) + (n & ~mask)`. Python rejects `bits == 0`, whose
      mask is the float 0.5. */
  function TwosComplement(n: int, bits: nat): (r: int)
    requires bits >= 1
    ensures r == n || r == n - Pow2(bits)
  {
    var mask := Pow2(bits - 1);
    var high := Bit(n, bits - 1) * mask;
    -high + (n - high)
  }

  /** The unsigned `bits`-wide encoding of `v`: its `bits` lowest bits. */
  function Unsigned(v: int, bits: nat): (u: nat)
    ensures u < Pow2(bits)
  {
    v % Pow2(bits)
  }

  /** On unsigned `bits`-wide inputs, `twos_complement` subtracts 2^bits exactly
      when the top bit is set, and lands in the signed `bits`-wide range. */
  lemma TwosComplementValue(n: int, bits: nat)
    requires bits >= 1 && 0 <= n < Pow2(bits)
    ensures TwosComplement(n, bits) == if n < Pow2(bits - 1) then n else n - Pow2(bits)
    ensures -(Pow2(bits - 1) as int) <= TwosComplement(n, bits) < Pow2(bits - 1)
  {
    var m := Pow2(bits - 1);
    assert Pow2(bits) == 2 * m;
    ShrIsDiv(n, bits - 1);
    if n < m {
      DivModUnique(n, m, 0, n);
      assert Bit(n, bits - 1) == 0;
    } else {
      DivModUnique(n, m, 1, n - m);
      assert Bit(n, bits - 1) == 1;
    }
  }

  /** `twos_complement` inverts the unsigned encoding, in both directions. */
  lemma TwosComplementInverse(v: int, n: int, bits: nat)
    requires bits >= 1
    requires -(Pow2(bits - 1) as int) <= v < Pow2(bits - 1)
    requires 0 <= n < Pow2(bits)
    ensures TwosComplement(Unsigned(v, bits), bits) == v
    ensures Unsigned(TwosComplement(n, bits), bits) == n
  {
    var m := Pow2(bits);
    if v >= 0 {
      DivModUnique(v, m, 0, v);
    } else {
      DivModUnique(v, m, -1, v + m);
    }
    TwosComplementValue(Unsigned(v, bits), bits);
    TwosComplementValue(n, bits);
    if n < Pow2(bits - 1) {
      DivModUnique(n, m, 0, n);
    } else {
      DivModUnique(n - m, m, -1, n);
    }
  }

  /** The signed 24-bit value whose little-endian bytes are `b0, b1, b2`. */
  function Signed24(b0: Byte, b1: Byte, b2: Byte): (r: int)
    ensures -0x80_0000 <= r < 0x80_0000
    ensures (r - (b0 + 0x100 * b1 + 0x1_0000 * b2)) % 0x100_0000 == 0
  {
    var u := b0 + 0x100 * b1 + 0x1_0000 * b2;
    if u < 0x80_0000 then u else u - 0x100_0000
  }

  /** Format `<h` of Python's struct module: a signed little-endian 16-bit value. */
  function Int16Le(b0: Byte, b1: Byte): (r: int)
    ensures -0x8000 <= r < 0x8000
    ensures (r - (b0 + 0x100 * b1)) % 0x1_0000 == 0
  {
    var u := b0 + 0x100 * b1;
    if u < 0x8000 then u else u - 0x1_0000
  }

  /** One 3-byte sample as `iter_i24_as_i32` computes it: format `<BH` gives
      `l = b0` and `h = b1 + 256 * b2`; the two halves of `h << 8 | l` occupy
      disjoint bits, so the bitwise or is a sum. The sample is sign-extended from
      24 bits and shifted into the top 24 bits of a 32-bit word. */
  function Canonical24(b0: Byte, b1: Byte, b2: Byte): (r: int)
    ensures r == Shl(Signed24(b0, b1, b2), 8)
    ensures Shr(r, 8) == Signed24(b0, b1, b2)
    ensures -0x8000_0000 <= r < 0x8000_0000
    ensures r % 0x100 == 0
  {
    var h := b1 + 0x100 * b2;
    var l := b0;
    Pow2Values();
    var u := Shl(h, 8) + l;
    assert u == b0 + 0x100 * b1 + 0x1_0000 * b2 && 0 <= u < 0x100_0000;
    var s := TwosComplement(u, 24);
    assert s == Signed24(b0, b1, b2) by {
      TwosComplementValue(u, 24);
    }
    ShlShrRoundTrip(s, 8);
    Shl(s, 8)
  }

  /** One 2-byte sample as `iter_i16_as_i32` computes it. */
  function Canonical16(b0: Byte, b1: Byte): (r: int)
    ensures r == Shl(Int16Le(b0, b1), 16)
    ensures Shr(r, 16) == Int16Le(b0, b1)
    ensures -0x8000_0000 <= r < 0x8000_0000
    ensures r % 0x1_0000 == 0
  {
    var x := Int16Le(b0, b1);
    Pow2Values();
    ShlShrRoundTrip(x, 16);
    Shl(x, 16)
  }

  /** `iter_i24_as_i32`: one canonical value per 3 bytes, in input order.
      Python's `struct.iter_unpack` refuses a buffer that is not a whole number
      of 3-byte records. */
  function Decode24(data: seq<Byte>): (r: seq<int>)
    requires |data| % 3 == 0
    ensures |r| == |data| / 3
    ensures forall i :: 0 <= i < |r| ==>
      r[i] == Canonical24(data[3 * i], data[3 * i + 1], data[3 * i + 2])
    decreases |data|
  {
    if |data| == 0 then []
    else [Canonical24(data[0], data[1], data[2])] + Decode24(data[3..])
  }

  /** `iter_i16_as_i32`: one canonical value per 2 bytes, in input order. */
  function Decode16(data: seq<Byte>): (r: seq<int>)
    requires |data| % 2 == 0
    ensures |r| == |data| / 2
    ensures forall i :: 0 <= i < |r| ==> r[i] == Canonical16(data[2 * i], data[2 * i + 1])
    decreases |data|
  {
    if |data| == 0 then []
    else [Canonical16(data[0], data[1])] + Decode16(data[2..])
  }

  predicate InRange24(vs: seq<int>)
  {
    forall i :: 0 <= i < |vs| ==> -0x80_0000 <= vs[i] < 0x80_0000
  }

  predicate InRange16(vs: seq<int>)
  {
    forall i :: 0 <= i < |vs| ==> -0x8000 <= vs[i] < 0x8000
  }

  /** The little-endian bytes of a signed 24-bit sample, as a WAV file stores it. */
  function Encode24(v: int): (bs: seq<Byte>)
    requires -0x80_0000 <= v < 0x80_0000
    ensures |bs| == 3
  {
    var u := v % 0x100_0000;
    [u % 0x100, (u / 0x100) % 0x100, u / 0x1_0000]
  }

  /** The little-endian bytes of a signed 16-bit sample. */
  function Encode16(v: int): (bs: seq<Byte>)
    requires -0x8000 <= v < 0x8000
    ensures |bs| == 2
  {
    var u := v % 0x1_0000;
    [u % 0x100, u / 0x100]
  }

  function EncodeAll24(vs: seq<int>): (data: seq<Byte>)
    requires InRange24(vs)
    ensures |data| == 3 * |vs|
    ensures forall i :: 0 <= i < |vs| ==>
      && data[3 * i] == Encode24(vs[i])[0]
      && data[3 * i + 1] == Encode24(vs[i])[1]
      && data[3 * i + 2] == Encode24(vs[i])[2]
  {
    if |vs| == 0 then [] else Encode24(vs[0]) + EncodeAll24(vs[1..])
  }

  function EncodeAll16(vs: seq<int>): (data: seq<Byte>)
    requires InRange16(vs)
    ensures |data| == 2 * |vs|
    ensures forall i :: 0 <= i < |vs| ==>
      && data[2 * i] == Encode16(vs[i])[0]
      && data[2 * i + 1] == Encode16(vs[i])[1]
  {
    if |vs| == 0 then [] else Encode16(vs[0]) + EncodeAll16(vs[1..])
  }

  /** The unsigned 24-bit encoding of `v`, split into little-endian bytes,
      reads back as `v`. */
  lemma Signed24OfEncode(v: int)
    requires -0x80_0000 <= v < 0x80_0000
    ensures var bs := Encode24(v); Signed24(bs[0], bs[1], bs[2]) == v
  {
    var bs := Encode24(v);
    var u := v % 0x100_0000;
    DivModUnique(u, 0x100, u / 0x100, u % 0x100);
    DivModUnique(u / 0x100, 0x100, u / 0x1_0000, bs[1]);
    assert bs[0] as int + 0x100 * bs[1] as int + 0x1_0000 * bs[2] as int == u;
    if v >= 0 {
      DivModUnique(v, 0x100_0000, 0, v);
    } else {
      DivModUnique(v, 0x100_0000, -1, v + 0x100_0000);
    }
  }

  /** Decoding the bytes of one 24-bit sample yields that sample shifted left by 8. */
  lemma Canonical24OfEncode(v: int)
    requires -0x80_0000 <= v < 0x80_0000
    ensures var bs := Encode24(v); Canonical24(bs[0], bs[1], bs[2]) == Shl(v, 8)
  {
    Signed24OfEncode(v);
  }

  /** The unsigned 16-bit encoding of `v`, split into little-endian bytes,
      reads back as `v`. */
  lemma Int16LeOfEncode(v: int)
    requires -0x8000 <= v < 0x8000
    ensures var bs := Encode16(v); Int16Le(bs[0], bs[1]) == v
  {
    var bs := Encode16(v);
    var u := v % 0x1_0000;
    DivModUnique(u, 0x100, u / 0x100, u % 0x100);
    assert bs[0] as int + 0x100 * bs[1] as int == u;
    if v >= 0 {
      DivModUnique(v, 0x1_0000, 0, v);
    } else {
      DivModUnique(v, 0x1_0000, -1, v + 0x1_0000);
    }
  }

  /** Decoding the bytes of one 16-bit sample yields that sample shifted left by 16. */
  lemma Canonical16OfEncode(v: int)
    requires -0x8000 <= v < 0x8000
    ensures var bs := Encode16(v); Canonical16(bs[0], bs[1]) == Shl(v, 16)
  {
    Int16LeOfEncode(v);
  }

  /** Sample `n` of a 24-bit buffer, as the decoder yields it. */
  lemma Decode24At(data: seq<Byte>, n: nat)
    requires |data| % 3 == 0 && 3 * n + 3 <= |data|
    ensures n < |Decode24(data)|
    ensures Decode24(data)[n] == Shl(Signed24(data[3 * n], data[3 * n + 1], data[3 * n + 2]), 8)
  {
  }

  /** Sample `n` of a 16-bit buffer, as the decoder yields it. */
  lemma Decode16At(data: seq<Byte>, n: nat)
    requires |data| % 2 == 0 && 2 * n + 2 <= |data|
    ensures n < |Decode16(data)|
    ensures Decode16(data)[n] == Shl(Int16Le(data[2 * n], data[2 * n + 1]), 16)
  {
  }

  /** Round trip: the 24-bit decoder maps the little-endian encoding of a
      sequence of signed 24-bit samples to those samples shifted left by 8, in
      order, and an arithmetic right shift by 8 recovers each sample. */
  lemma Decode24RoundTrip(vs: seq<int>)
    requires InRange24(vs)
    ensures |Decode24(EncodeAll24(vs))| == |vs|
    ensures forall i :: 0 <= i < |vs| ==> Decode24(EncodeAll24(vs))[i] == Shl(vs[i], 8)
    ensures forall i :: 0 <= i < |vs| ==> Shr(Decode24(EncodeAll24(vs))[i], 8) == vs[i]
  {
    var data := EncodeAll24(vs);
    var r := Decode24(data);
    forall i | 0 <= i < |vs|
      ensures r[i] == Shl(vs[i], 8) && Shr(r[i], 8) == vs[i]
    {
      Decode24At(data, i);
      Signed24OfEncode(vs[i]);
      ShlShrRoundTrip(vs[i], 8);
    }
  }

  /** Round trip for the 16-bit decoder: each sample comes back shifted left by
      16, in order, and a right shift by 16 recovers it. */
  lemma Decode16RoundTrip(vs: seq<int>)
    requires InRange16(vs)
    ensures |Decode16(EncodeAll16(vs))| == |vs|
    ensures forall i :: 0 <= i < |vs| ==> Decode16(EncodeAll16(vs))[i] == Shl(vs[i], 16)
    ensures forall i :: 0 <= i < |vs| ==> Shr(Decode16(EncodeAll16(vs))[i], 16) == vs[i]
  {
    var data := EncodeAll16(vs);
    var r := Decode16(data);
    forall i | 0 <= i < |vs|
      ensures r[i] == Shl(vs[i], 16) && Shr(r[i], 16) == vs[i]
    {
      Decode16At(data, i);
      Int16LeOfEncode(vs[i]);
      ShlShrRoundTrip(vs[i], 16);
    }
  }
}
