/** The 64-bit FNV-1a fold that hashes byte-vector map keys. */
module Hash {
  import opened Octets

  const OFFSET_BASIS := 0xcbf29ce484222325
  const PRIME := 0x100000001b3
  const PRIME_INVERSE := 0xce965057aff6957b

  type Word = h: int | 0 <= h < U64_LIMIT

  /** Exclusive or of a byte into a 64-bit word only touches the low byte. */
  function XorByte(h: Word, b: byte): Word
  {
    h - h % 256 + XorLow(h % 256, b)
  }

  function XorLow(x: byte, y: byte): byte
  {
    XorBits(8, x, y)
  }

  /** Bitwise exclusive or of the low `n` bits. */
  function XorBits(n: nat, x: nat, y: nat): (r: nat)
    ensures r < Pow2(n)
  {
    if n == 0 then 0 else 2 * XorBits(n - 1, x / 2, y / 2) + (x + y) % 2
  }

  function Pow2(n: nat): nat
  {
    if n == 0 then 1 else 2 * Pow2(n - 1)
  }

  function Step(h: Word, b: byte): Word
  {
    XorByte(h, b) * PRIME % U64_LIMIT
  }

  function Fold(h: Word, v: Bytes): Word
  {
    if v == [] then h else Step(Fold(h, v[..|v| - 1]), v[|v| - 1])
  }

  method HashBytes(v: Bytes) returns (h: Word)
    ensures h == Fold(OFFSET_BASIS, v)
  {
    h := OFFSET_BASIS;
    for i := 0 to |v|
      invariant h == Fold(OFFSET_BASIS, v[..i])
    {
      assert v[..i + 1][..i] == v[..i];
      h := XorByte(h, v[i]);
      h := h * PRIME % U64_LIMIT;
    }
    assert v[..|v|] == v;
  }

  lemma {:induction false} XorBitsCancels(n: nat, x: nat, y: nat)
    requires x < Pow2(n)
    ensures XorBits(n, XorBits(n, x, y), y) == x
  {
    if n > 0 {
      XorBitsCancels(n - 1, x / 2, y / 2);
      var z := XorBits(n, x, y);
      BitSplit(XorBits(n - 1, x / 2, y / 2), x + y, z);
      BitCancels(x, y, z);
    }
  }

  lemma BitSplit(high: nat, sum: nat, z: nat)
    requires z == 2 * high + sum % 2
    ensures z / 2 == high && z % 2 == sum % 2
  {
  }

  lemma BitCancels(x: nat, y: nat, z: nat)
    requires z % 2 == (x + y) % 2
    ensures (z + y) % 2 == x % 2
  {
  }

  lemma {:induction false} XorBitsCommutes(n: nat, x: nat, y: nat)
    ensures XorBits(n, x, y) == XorBits(n, y, x)
  {
    if n > 0 {
      XorBitsCommutes(n - 1, x / 2, y / 2);
    }
  }

  /** The multiplication has a two-sided inverse modulo 2^64. */
  lemma MultiplyInverts(h: Word)
    ensures (h * PRIME % U64_LIMIT) * PRIME_INVERSE % U64_LIMIT == h
  {
    var t, k := h * PRIME % U64_LIMIT, h * PRIME / U64_LIMIT;
    var c := PRIME * PRIME_INVERSE / U64_LIMIT;
    assert PRIME * PRIME_INVERSE == 1 + U64_LIMIT * c;
    assert t * PRIME_INVERSE == h + U64_LIMIT * (h * c - k * PRIME_INVERSE);
  }

  /** Each step is injective in the running hash: equal outputs on one byte mean equal inputs. */
  lemma StepInjectiveInState(g: Word, h: Word, b: byte)
    requires Step(g, b) == Step(h, b)
    ensures g == h
  {
    MultiplyInverts(XorByte(g, b));
    MultiplyInverts(XorByte(h, b));
    XorByteParts(g, b);
    XorByteParts(h, b);
    XorBitsCancels(8, g % 256, b);
    XorBitsCancels(8, h % 256, b);
  }

  lemma XorByteParts(h: Word, b: byte)
    ensures XorByte(h, b) % 256 == XorLow(h % 256, b)
    ensures XorByte(h, b) / 256 == h / 256
  {
    hide XorLow;
    DivMod(XorByte(h, b), h / 256, XorLow(h % 256, b), 256);
  }

  lemma StepInjectiveInByte(h: Word, b: byte, c: byte)
    requires Step(h, b) == Step(h, c)
    ensures b == c
  {
    MultiplyInverts(XorByte(h, b));
    MultiplyInverts(XorByte(h, c));
    XorByteParts(h, b);
    XorByteParts(h, c);
    XorBitsCommutes(8, h % 256, b);
    XorBitsCommutes(8, h % 256, c);
    XorBitsCancels(8, b, h % 256);
    XorBitsCancels(8, c, h % 256);
  }

  /** Two keys of one length that differ in exactly one position never collide. */
  lemma {:induction false} OneByteChangeNeverCollides(h: Word, v: Bytes, w: Bytes, i: nat)
    requires |v| == |w| && i < |v| && v[i] != w[i]
    requires forall j :: 0 <= j < |v| && j != i ==> v[j] == w[j]
    ensures Fold(h, v) != Fold(h, w)
  {
    var n := |v| - 1;
    if i == n {
      assert v[..n] == w[..n];
      if Fold(h, v) == Fold(h, w) {
        StepInjectiveInByte(Fold(h, v[..n]), v[n], w[n]);
      }
    } else {
      OneByteChangeNeverCollides(h, v[..n], w[..n], i);
      if Fold(h, v) == Fold(h, w) {
        StepInjectiveInState(Fold(h, v[..n]), Fold(h, w[..n]), v[n]);
      }
    }
  }

  lemma XorBit(n: nat, x: nat, y: nat)
    requires n > 0
    ensures XorBits(n, x, y) == 2 * XorBits(n - 1, x / 2, y / 2) + (x + y) % 2
  {
  }

  lemma XorOfLetter()
    ensures XorLow(0x25, 0x61) == 0x44
  {
    assert XorBits(0, 0, 0) == 0;
    hide XorBits;
    XorBit(1, 0, 0);
    XorBit(2, 0, 1);
    XorBit(3, 1, 3);
    XorBit(4, 2, 6);
    XorBit(5, 4, 12);
    XorBit(6, 9, 24);
    XorBit(7, 18, 48);
    XorBit(8, 37, 97);
  }

  lemma LetterStep()
    ensures Step(0xcbf29ce484222325, 0x61) == 0xaf63dc4c8601ec8c
  {
    XorOfLetter();
    hide XorLow;
    assert XorByte(0xcbf29ce484222325, 0x61) == 0xcbf29ce484222344;
    hide XorByte;
    LetterProduct();
  }

  lemma LetterProduct()
    ensures 0xcbf29ce484222344 * PRIME % U64_LIMIT == 0xaf63dc4c8601ec8c
  {
    DivMod(0xcbf29ce484222344 * PRIME, 0xcbf29ce5de, 0xaf63dc4c8601ec8c, U64_LIMIT);
  }

  /** Published values of the 64-bit FNV-1a hash: of nothing, and of the letter `a`. */
  lemma KnownHashes()
    ensures Fold(OFFSET_BASIS, []) == 0xcbf29ce484222325
    ensures Fold(OFFSET_BASIS, [0x61]) == 0xaf63dc4c8601ec8c
  {
    hide Step;
    LetterStep();
    assert [0x61][..0] == [];
  }
}
