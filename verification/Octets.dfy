/** Bytes, and the fixed-width integer fields that the wire formats are made of.
    `std::string` and `std::vector<uint8_t>` are both byte sequences in the source, so both are `Bytes`. */
module Octets {

  type byte = x: int | 0 <= x < 256

  type Bytes = seq<byte>

  datatype Option<+T> = None | Some(value: T)

  datatype Result<+T, +E> = Ok(value: T) | Err(error: E)

  const U16_LIMIT := 0x1_0000
  const U32_LIMIT := 0x1_0000_0000
  const U64_LIMIT := 0x1_0000_0000_0000_0000

  /** The bytes of a source literal. */
  function Ascii(s: string): (b: Bytes)
    ensures |b| == |s|
    ensures forall i :: 0 <= i < |s| ==> b[i] == s[i] as int % 256
  {
    seq(|s|, i requires 0 <= i < |s| => s[i] as int % 256)
  }

  // Big-endian 16- and 32-bit fields. Encoding truncates, as the source's casts do.

  function EncodeU16(v: nat): (b: Bytes)
    ensures |b| == 2
  {
    [v / 256 % 256, v % 256]
  }

  function DecodeU16(b: Bytes): (v: nat)
    requires |b| == 2
    ensures v < U16_LIMIT
  {
    (b[0] as int) * 256 + b[1]
  }

  lemma U16RoundTrip(v: nat)
    ensures DecodeU16(EncodeU16(v)) == v % U16_LIMIT
  {
    ModStep(v, 256);
  }

  lemma U16Canonical(b: Bytes)
    requires |b| == 2
    ensures EncodeU16(DecodeU16(b)) == b
  {
  }

  function EncodeU32(v: nat): (b: Bytes)
    ensures |b| == 4
  {
    EncodeU16(v / U16_LIMIT) + EncodeU16(v)
  }

  function DecodeU32(b: Bytes): (v: nat)
    requires |b| == 4
    ensures v < U32_LIMIT
  {
    DecodeU16(b[..2]) * U16_LIMIT + DecodeU16(b[2..])
  }

  lemma U32RoundTrip(v: nat)
    ensures DecodeU32(EncodeU32(v)) == v % U32_LIMIT
  {
    hide EncodeU16, DecodeU16;
    var b := EncodeU32(v);
    assert b[..2] == EncodeU16(v / U16_LIMIT) && b[2..] == EncodeU16(v);
    U16RoundTrip(v / U16_LIMIT);
    U16RoundTrip(v);
    HalvesOf(v);
  }

  lemma HalvesOf(v: nat)
    ensures v / U16_LIMIT % U16_LIMIT * U16_LIMIT + v % U16_LIMIT == v % U32_LIMIT
  {
  }

  lemma U32Canonical(b: Bytes)
    requires |b| == 4
    ensures EncodeU32(DecodeU32(b)) == b
  {
    U16Canonical(b[..2]);
    U16Canonical(b[2..]);
    var hi, lo := DecodeU16(b[..2]), DecodeU16(b[2..]);
    EncodeU16IgnoresHighPart(lo, hi);
    assert b == b[..2] + b[2..];
  }

  lemma EncodeU16IgnoresHighPart(lo: nat, hi: nat)
    ensures EncodeU16(hi * U16_LIMIT + lo) == EncodeU16(lo)
  {
    DigitIgnoresHighPart(lo, hi, 256);
    DigitIgnoresHighPart(lo, 256 * hi, 1);
  }

  // Little-endian fields of any width, byte `i` being `(v >> 8 * i) & 0xFF`.

  function Pow256(n: nat): (p: nat)
    ensures p > 0
  {
    if n == 0 then 1 else 256 * Pow256(n - 1)
  }

  function EncodeLe(v: nat, n: nat): (b: Bytes)
    ensures |b| == n
  {
    if n == 0 then [] else EncodeLe(v, n - 1) + [v / Pow256(n - 1) % 256]
  }

  function DecodeLe(b: Bytes): (v: nat)
  {
    if b == [] then 0 else DecodeLe(b[..|b| - 1]) + (b[|b| - 1] as int) * Pow256(|b| - 1)
  }

  lemma MulAtLeast(x: int, p: nat)
    requires x >= 1
    ensures x * p >= p
  {
  }

  lemma DivMod(a: nat, q: nat, r: nat, p: nat)
    requires a == q * p + r && r < p
    ensures a / p == q && a % p == r
  {
    var q', r' := a / p, a % p;
    assert a == p * q' + r';
    assert (q - q') * p == r' - r;
    if q' < q {
      MulAtLeast(q - q', p);
    } else if q < q' {
      MulAtLeast(q' - q, p);
    }
  }

  lemma ModStep(v: nat, p: nat)
    requires p > 0
    ensures v % (256 * p) == v % p + (v / p % 256) * p
  {
    var q, r := v / p, v % p;
    var h, d := q / 256, q % 256;
    assert v == p * q + r;
    assert q == 256 * h + d;
    assert p * q == h * (256 * p) + d * p;
    MulAtLeast(256 - d, p);
    assert (256 - d) * p == 256 * p - d * p;
    DivMod(v, h, d * p + r, 256 * p);
  }

  lemma {:induction false} LeRoundTrip(v: nat, n: nat)
    ensures DecodeLe(EncodeLe(v, n)) == v % Pow256(n)
  {
    if n > 0 {
      LeRoundTrip(v, n - 1);
      var b := EncodeLe(v, n);
      assert b[..n - 1] == EncodeLe(v, n - 1);
      ModStep(v, Pow256(n - 1));
    }
  }

  lemma {:induction false} DecodeLeBound(b: Bytes)
    ensures DecodeLe(b) < Pow256(|b|)
  {
    if b != [] {
      DecodeLeBound(b[..|b| - 1]);
      var d, p := b[|b| - 1] as int, Pow256(|b| - 1);
      MulAtLeast(256 - d, p);
      assert (256 - d) * p == 256 * p - d * p;
    }
  }

  lemma DigitIgnoresHighPart(low: nat, j: nat, p: nat)
    requires p > 0
    ensures (low + 256 * j * p) / p % 256 == low / p % 256
  {
    var q, r := low / p, low % p;
    assert low == p * q + r;
    assert (q + 256 * j) * p == p * q + 256 * j * p;
    DivMod(low + 256 * j * p, q + 256 * j, r, p);
  }

  lemma {:induction false} EncodeLeIgnoresHighPart(low: nat, k: nat, m: nat, n: nat)
    requires n <= m
    ensures EncodeLe(low + k * Pow256(m), n) == EncodeLe(low, n)
  {
    if n > 0 {
      EncodeLeIgnoresHighPart(low, k, m, n - 1);
      var w := PowSplit(n - 1, m);
      MulRegroup(k, w, Pow256(n - 1));
      DigitIgnoresHighPart(low, k * w, Pow256(n - 1));
    }
  }

  lemma MulRegroup(k: nat, w: nat, p: nat)
    ensures k * (256 * w * p) == 256 * (k * w) * p
  {
    assert 256 * w * p == 256 * (w * p);
    assert k * (256 * (w * p)) == 256 * (k * (w * p));
    assert k * (w * p) == (k * w) * p;
  }

  lemma {:induction false} PowSplit(n: nat, m: nat) returns (w: nat)
    requires n < m
    ensures Pow256(m) == 256 * w * Pow256(n)
    decreases m
  {
    if n + 1 == m {
      w := 1;
    } else {
      var w' := PowSplit(n, m - 1);
      w := 256 * w';
      assert Pow256(m) == 256 * (256 * w' * Pow256(n)) == 256 * w * Pow256(n);
    }
  }

  lemma {:induction false} LeCanonical(b: Bytes)
    ensures EncodeLe(DecodeLe(b), |b|) == b
  {
    if b != [] {
      var n := |b| - 1;
      var init, d, p := b[..n], b[n] as int, Pow256(n);
      var low := DecodeLe(init);
      LeCanonical(init);
      DecodeLeBound(init);
      EncodeLeIgnoresHighPart(low, d, n, n);
      TopDigit(low, d, p);
      assert EncodeLe(DecodeLe(b), n + 1) == EncodeLe(low + d * p, n) + [d];
      assert b == init + [b[n]];
    }
  }

  lemma TopDigit(low: nat, d: nat, p: nat)
    requires low < p && d < 256
    ensures (low + d * p) / p % 256 == d
  {
    assert low + d * p == d * p + low;
    DivMod(low + d * p, d, low, p);
  }

  // The 64-bit instance.

  function EncodeU64(v: nat): (b: Bytes)
    ensures |b| == 8
  {
    EncodeLe(v, 8)
  }

  function DecodeU64(b: Bytes): (v: nat)
    requires |b| == 8
    ensures v < U64_LIMIT
  {
    DecodeLeBound(b);
    Pow256Of(|b|);
    DecodeLe(b)
  }

  lemma U64RoundTrip(v: nat)
    ensures DecodeU64(EncodeU64(v)) == v % U64_LIMIT
  {
    LeRoundTrip(v, 8);
    Pow256Of(8);
  }

  lemma U64Canonical(b: Bytes)
    requires |b| == 8
    ensures EncodeU64(DecodeU64(b)) == b
  {
    LeCanonical(b);
  }

  lemma Pow256Of(n: nat)
    requires n == 8
    ensures Pow256(n) == U64_LIMIT
  {
    assert Pow256(4) == U32_LIMIT;
  }
}
