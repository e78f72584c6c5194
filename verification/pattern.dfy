/** The syncword constant (is_mqa.py line 9) and the bit-granular search that
    `bitstring.Bits.find` performs on each bit-plane (line 59). */
module Pattern {
  import opened Wrappers
  import opened Bits

  predicate IsHexDigit(c: char)
  {
    '0' <= c <= '9' || 'a' <= c <= 'f' || 'A' <= c <= 'F'
  }

  function HexValue(c: char): (v: nat)
    requires IsHexDigit(c)
    ensures v < 16
  {
    if '0' <= c <= '9' then c as nat - '0' as nat
    else if 'a' <= c <= 'f' then c as nat - 'a' as nat + 10
    else c as nat - 'A' as nat + 10
  }

  /** The `width` lowest bits of `n`, most significant first. */
  function BitsMsbFirst(n: nat, width: nat): (r: seq<bool>)
    ensures |r| == width
  {
    if width == 0 then [] else BitsMsbFirst(n / 2, width - 1) + [n % 2 == 1]
  }

  /** The number a bit string spells, most significant bit first. */
  function ValueMsbFirst(s: seq<bool>): nat
  {
    if |s| == 0 then 0
    else 2 * ValueMsbFirst(s[..|s| - 1]) + (if s[|s| - 1] then 1 else 0)
  }

  /** What `Bits('0x…')` builds from the digits after `0x`: four bits per hex
      digit, most significant first. */
  function HexBits(digits: string): (r: seq<bool>)
    requires forall i :: 0 <= i < |digits| ==> IsHexDigit(digits[i])
    ensures |r| == 4 * |digits|
  {
    if |digits| == 0 then []
    else HexBits(digits[..|digits| - 1]) + BitsMsbFirst(HexValue(digits[|digits| - 1]), 4)
  }

  const MagicDigits: string := "be0498c88"

  /** `MAGIC = Bits('0xbe0498c88')`, the MQA syncword. */
  const Magic: seq<bool> := HexBits(MagicDigits)

  /** Reading `width` bits back gives the number they were taken from. */
  lemma {:induction false} BitsMsbFirstRoundTrip(n: nat, width: nat)
    requires n < Pow2(width)
    ensures ValueMsbFirst(BitsMsbFirst(n, width)) == n
  {
    if width > 0 {
      var r := BitsMsbFirst(n, width);
      assert r[..width - 1] == BitsMsbFirst(n / 2, width - 1);
      assert r[width - 1] == (n % 2 == 1);
      assert n / 2 < Pow2(width - 1);
      BitsMsbFirstRoundTrip(n / 2, width - 1);
      assert ValueMsbFirst(r) == 2 * (n / 2) + n % 2;
    }
  }

  lemma Regroup(va: int, vb: int, pw: int, last: int)
    ensures 2 * (va * pw + vb) + last == va * (2 * pw) + (2 * vb + last)
  {
  }

  lemma {:induction false} ValueMsbFirstAppend(a: seq<bool>, b: seq<bool>)
    ensures ValueMsbFirst(a + b) == ValueMsbFirst(a) * Pow2(|b|) + ValueMsbFirst(b)
    decreases |b|
  {
    if |b| > 0 {
      var b' := b[..|b| - 1];
      var last := if b[|b| - 1] then 1 else 0;
      assert (a + b)[..|a + b| - 1] == a + b';
      assert (a + b)[|a + b| - 1] == b[|b| - 1];
      ValueMsbFirstAppend(a, b');
      Regroup(ValueMsbFirst(a), ValueMsbFirst(b'), Pow2(|b'|), last);
    } else {
      assert a + b == a;
    }
  }

  /** The bits of a hex string spell the number its digits spell. */
  function HexNumber(digits: string): nat
    requires forall i :: 0 <= i < |digits| ==> IsHexDigit(digits[i])
  {
    if |digits| == 0 then 0
    else 16 * HexNumber(digits[..|digits| - 1]) + HexValue(digits[|digits| - 1])
  }

  lemma {:induction false} HexBitsValue(digits: string)
    requires forall i :: 0 <= i < |digits| ==> IsHexDigit(digits[i])
    ensures ValueMsbFirst(HexBits(digits)) == HexNumber(digits)
  {
    if |digits| > 0 {
      var init := digits[..|digits| - 1];
      var d := HexValue(digits[|digits| - 1]);
      var hi, lo := HexBits(init), BitsMsbFirst(d, 4);
      assert HexBits(digits) == hi + lo;
      assert |lo| == 4 && Pow2(4) == 16;
      HexBitsValue(init);
      ValueMsbFirstAppend(hi, lo);
      BitsMsbFirstRoundTrip(d, 4);
      assert ValueMsbFirst(hi + lo) == ValueMsbFirst(hi) * 16 + d;
      assert HexNumber(digits) == 16 * HexNumber(init) + d;
    }
  }

  lemma MagicNumber()
    ensures HexNumber(MagicDigits) == 0xBE0498C88
  {
    var d := MagicDigits;
    assert d[..1] == "b" && d[..1][..0] == "";
    forall k | 1 <= k <= 8
      ensures d[..k + 1][..k] == d[..k]
    {
    }
    assert d[..9] == d;
    assert HexNumber(d[..1]) == 0xb;
    assert HexNumber(d[..2]) == 0xbe;
    assert HexNumber(d[..3]) == 0xbe0;
    assert HexNumber(d[..4]) == 0xbe04;
    assert HexNumber(d[..5]) == 0xbe049;
    assert HexNumber(d[..6]) == 0xbe0498;
    assert HexNumber(d[..7]) == 0xbe0498c;
    assert HexNumber(d[..8]) == 0xbe0498c8;
  }

  lemma MagicFirstBit()
    ensures HexBits(MagicDigits)[0]
  {
    var d := MagicDigits;
    HexBitsPrefix(d, 1);
    assert d[..1] == "b" && d[..1][..0] == "";
    assert BitsMsbFirst(0xb, 4) == [true, false, true, true];
    assert HexBits(d[..1]) == [true, false, true, true];
    assert HexBits(d)[0] == HexBits(d)[..4][0];
  }

  /** The syncword is the 36-bit value 0xBE0498C88 with its leading bit set:
      nine hex digits, no width reinterpretation. */
  lemma MagicValue()
    ensures |Magic| == 36
    ensures ValueMsbFirst(Magic) == 0xBE0498C88
    ensures Magic[0]
  {
    HexBitsValue(MagicDigits);
    MagicNumber();
    MagicFirstBit();
  }

  lemma {:induction false} HexBitsPrefix(digits: string, n: nat)
    requires forall i :: 0 <= i < |digits| ==> IsHexDigit(digits[i])
    requires n <= |digits|
    ensures HexBits(digits)[..4 * n] == HexBits(digits[..n])
    decreases |digits|
  {
    if n < |digits| {
      var init := digits[..|digits| - 1];
      assert init[..n] == digits[..n];
      HexBitsPrefix(init, n);
    } else {
      assert digits[..n] == digits;
    }
  }

  /** `pat` occurs in `s` starting at bit offset `k`, with no wrap-around. */
  predicate OccursAt(s: seq<bool>, pat: seq<bool>, k: nat)
  {
    k + |pat| <= |s| && s[k..k + |pat|] == pat
  }

  function FindFrom(s: seq<bool>, pat: seq<bool>, from: nat): (r: Option<nat>)
    ensures r.Some? ==> from <= r.value && OccursAt(s, pat, r.value)
    ensures r.Some? ==> forall k :: from <= k < r.value ==> !OccursAt(s, pat, k)
    ensures r.None? ==> forall k :: from <= k ==> !OccursAt(s, pat, k)
    decreases |s| - from
  {
    if from + |pat| > |s| then None
    else if s[from..from + |pat|] == pat then Some(from)
    else FindFrom(s, pat, from + 1)
  }

  /** `Bits.find`: the first offset at which `pat` occurs in `s`, or nothing.
      `bitstring` refuses to search for an empty pattern. */
  function Find(s: seq<bool>, pat: seq<bool>): (r: Option<nat>)
    requires |pat| > 0
    ensures r.Some? <==> exists k: nat :: OccursAt(s, pat, k)
    ensures forall k: nat :: r == Some(k) <==>
      OccursAt(s, pat, k) && forall j :: 0 <= j < k ==> !OccursAt(s, pat, j)
  {
    FindFrom(s, pat, 0)
  }
}
