/** FNV-1a checksums (crates/tb-encode/src/blkfmt.rs) and why they catch every single-byte
    change: one step is injective in the state and in the byte. */
module Fnv {
  import opened Words
  import opened IntMath

  const FNV64_OFFSET: u64 := 0xcbf2_9ce4_8422_2325
  const FNV64_PRIME := 0x0000_0100_0000_01b3
  const FNV32_OFFSET: u32 := 0x811c_9dc5
  const FNV32_PRIME := 0x0100_0193

  /** The inverses of the two primes modulo the word size. */
  const FNV64_INVERSE := 0xce96_5057_aff6_957b
  const FNV32_INVERSE := 0x359c_449b

  /** The word size, prime and inverse of one width of the hash. */
  datatype Width = W32 | W64 {
    function Modulus(): nat {
      if W32? then TWO32 else TWO64
    }

    function Prime(): nat {
      if W32? then FNV32_PRIME else FNV64_PRIME
    }

    function Offset(): nat
      ensures Offset() < Modulus()
    {
      if W32? then FNV32_OFFSET else FNV64_OFFSET
    }
  }

  /** Bitwise exclusive or. */
  function Xor(a: nat, b: nat): nat
    decreases a + b
  {
    if a == 0 && b == 0 then 0 else (a + b) % 2 + 2 * Xor(a / 2, b / 2)
  }

  /** One step, with the multiplication wrapping at the word size. */
  function Step(w: Width, h: nat, b: byte): nat
    ensures Step(w, h, b) < w.Modulus()
  {
    Xor(h, b) * w.Prime() % w.Modulus()
  }

  function Hash(w: Width, h: nat, data: seq<byte>): nat
    decreases |data|
  {
    if data == [] then h else Hash(w, Step(w, h, data[0]), data[1..])
  }

  function Fnv1a(w: Width, data: seq<byte>): (r: nat)
    ensures r < w.Modulus()
  {
    HashInRange(w, w.Offset(), data);
    Hash(w, w.Offset(), data)
  }

  lemma {:induction false} HashInRange(w: Width, h: nat, data: seq<byte>)
    requires h < w.Modulus()
    ensures Hash(w, h, data) < w.Modulus()
    decreases |data|
  {
    if data != [] {
      HashInRange(w, Step(w, h, data[0]), data[1..]);
    }
  }

  /** The accumulator loop. */
  method Fnv1aLoop(w: Width, data: seq<byte>) returns (h: nat)
    ensures h == Fnv1a(w, data)
  {
    h := w.Offset();
    var i := 0;
    while i < |data|
      invariant 0 <= i <= |data|
      invariant Hash(w, h, data[i..]) == Hash(w, w.Offset(), data)
    {
      assert data[i..][1..] == data[i + 1..];
      h := Xor(h, data[i]);
      h := h * w.Prime() % w.Modulus();
      i := i + 1;
    }
  }

  lemma {:induction false} XorCancels(a: nat, b: nat, c: nat)
    requires Xor(a, b) == Xor(a, c)
    ensures b == c
    decreases a + b + c
  {
    XorUnfolds(a, b);
    XorUnfolds(a, c);
    if a + b + c > 0 {
      XorCancels(a / 2, b / 2, c / 2);
    }
  }

  lemma XorStep(a: nat, b: nat)
    ensures Xor(a, b) == (a + b) % 2 + 2 * Xor(a / 2, b / 2)
  {
    if a == 0 && b == 0 {
      assert Xor(0, 0) == 0;
    }
  }

  lemma XorUnfolds(a: nat, b: nat)
    ensures Xor(a, b) % 2 == (a + b) % 2 && Xor(a, b) / 2 == Xor(a / 2, b / 2)
  {
    hide Xor;
    XorStep(a, b);
    BitAndRest((a + b) % 2, Xor(a / 2, b / 2));
  }

  lemma BitAndRest(bit: nat, rest: nat)
    requires bit < 2
    ensures (bit + 2 * rest) % 2 == bit && (bit + 2 * rest) / 2 == rest
  {
  }

  lemma {:induction false} XorCommutes(a: nat, b: nat)
    ensures Xor(a, b) == Xor(b, a)
    decreases a + b
  {
    if a + b > 0 {
      XorCommutes(a / 2, b / 2);
    }
  }

  lemma {:induction false} XorFits(a: nat, b: nat, k: nat)
    requires a < Pow2(k) && b < Pow2(k)
    ensures Xor(a, b) < Pow2(k)
    decreases k
  {
    if k > 0 {
      XorFits(a / 2, b / 2, k - 1);
    }
  }

  lemma XorInRange(w: Width, h: nat, b: byte)
    requires h < w.Modulus()
    ensures Xor(h, b) < w.Modulus()
  {
    hide Pow2, Xor;
    Pow2Adds(32, 32);
    Pow2Of32();
    XorFits(h, b, if w.W32? then 32 else 64);
  }

  lemma Pow2Of32()
    ensures Pow2(32) == TWO32
  {
    hide Pow2;
    Pow2Of1();
    Pow2Adds(1, 1);
    Pow2Adds(2, 2);
    Pow2Adds(4, 4);
    Pow2Adds(8, 8);
    Pow2Adds(16, 16);
  }

  /** An odd factor has an inverse modulo a power of two, so multiplication by the prime loses
      nothing. */
  lemma PrimeCancels(w: Width, x: nat, y: nat)
    requires x < w.Modulus() && y < w.Modulus()
    requires x * w.Prime() % w.Modulus() == y * w.Prime() % w.Modulus()
    ensures x == y
  {
    if w.W64? {
      var k := x * FNV64_PRIME / TWO64 - y * FNV64_PRIME / TWO64;
      var m := FNV64_PRIME * FNV64_INVERSE / TWO64;
      DifferenceVanishes(x - y, FNV64_PRIME, FNV64_INVERSE, TWO64, k, m);
    } else {
      var k := x * FNV32_PRIME / TWO32 - y * FNV32_PRIME / TWO32;
      var m := FNV32_PRIME * FNV32_INVERSE / TWO32;
      DifferenceVanishes(x - y, FNV32_PRIME, FNV32_INVERSE, TWO32, k, m);
    }
  }

  lemma DifferenceVanishes(d: int, prime: int, inverse: int, modulus: int, k: int, m: int)
    requires d * prime == k * modulus && prime * inverse == 1 + m * modulus
    requires -modulus < d < modulus
    ensures d == 0
  {
    calc {
      d;
      d * (prime * inverse) - d * (m * modulus);
      (d * prime) * inverse - d * (m * modulus);
      (k * modulus) * inverse - d * (m * modulus);
      (k * inverse - d * m) * modulus;
    }
    MultipleOfModulus(k * inverse - d * m, modulus);
  }

  lemma MultipleOfModulus(j: int, modulus: int)
    requires -modulus < j * modulus < modulus
    ensures j == 0
  {
    ProductsOrdered(modulus, j, 1);
    ProductsOrdered(modulus, -1, j);
  }

  /** Two states that meet under the same byte were equal; two bytes that lead one state to the
      same state are equal. */
  lemma StepIsInjective(w: Width, h: nat, h': nat, b: byte, b': byte)
    requires h < w.Modulus() && h' < w.Modulus()
    ensures Step(w, h, b) == Step(w, h', b) ==> h == h'
    ensures Step(w, h, b) == Step(w, h, b') ==> b == b'
  {
    hide Xor;
    XorInRange(w, h, b);
    XorInRange(w, h', b);
    XorInRange(w, h, b');
    if Step(w, h, b) == Step(w, h', b) {
      PrimeCancels(w, Xor(h, b), Xor(h', b));
      XorCommutes(h, b);
      XorCommutes(h', b);
      XorCancels(b, h, h');
    }
    if Step(w, h, b) == Step(w, h, b') {
      PrimeCancels(w, Xor(h, b), Xor(h, b'));
      XorCancels(h, b, b');
    }
  }

  /** A difference of state survives any common tail. */
  lemma {:induction false} HashIsInjective(w: Width, h: nat, h': nat, data: seq<byte>)
    requires h < w.Modulus() && h' < w.Modulus()
    requires Hash(w, h, data) == Hash(w, h', data)
    ensures h == h'
    decreases |data|
  {
    hide Step;
    if data != [] {
      HashIsInjective(w, Step(w, h, data[0]), Step(w, h', data[0]), data[1..]);
      StepIsInjective(w, h, h', data[0], data[0]);
    }
  }

  lemma {:induction false} HashSeesOneByte(w: Width, h: nat, data: seq<byte>, i: nat, b: byte)
    requires h < w.Modulus() && i < |data| && b != data[i]
    ensures Hash(w, h, data[i := b]) != Hash(w, h, data)
    decreases |data|
  {
    hide Step;
    var data' := data[i := b];
    if i == 0 {
      assert data'[1..] == data[1..];
      if Hash(w, h, data') == Hash(w, h, data) {
        HashIsInjective(w, Step(w, h, b), Step(w, h, data[0]), data[1..]);
        StepIsInjective(w, h, h, b, data[0]);
        assert false;
      }
    } else {
      assert data'[1..] == data[1..][i - 1 := b];
      HashSeesOneByte(w, Step(w, h, data[0]), data[1..], i - 1, b);
    }
  }

  /** Changing any one byte of any string changes its checksum. */
  lemma OneByteChangesChecksum(w: Width, data: seq<byte>, i: nat, b: byte)
    requires i < |data| && b != data[i]
    ensures Fnv1a(w, data[i := b]) != Fnv1a(w, data)
  {
    HashSeesOneByte(w, w.Offset(), data, i, b);
  }

  // ---- What the checksum is ----------------------------------------------------------------

  lemma HalfOfByte(x: bv8)
    ensures x as nat / 2 == (x >> 1) as nat && x as nat % 2 == (x & 1) as nat
  {
  }

  lemma XorOfBits(x: bv8, y: bv8)
    ensures (x ^ y) & 1 == (x & 1) ^ (y & 1) && (x ^ y) >> 1 == (x >> 1) ^ (y >> 1)
  {
  }

  lemma XorOfOneBit(x: bv8, y: bv8)
    ensures ((x & 1) ^ (y & 1)) as nat == ((x & 1) as nat + (y & 1) as nat) % 2
  {
  }

  /** Two bytes, bit 0 and the rest, in numbers. */
  lemma XorSplits(x: bv8, y: bv8)
    ensures (x ^ y) as nat == (x as nat % 2 + y as nat % 2) % 2 + 2 * ((x >> 1) ^ (y >> 1)) as nat
  {
    HalfOfByte(x);
    HalfOfByte(y);
    HalfOfByte(x ^ y);
    XorOfBits(x, y);
    XorOfOneBit(x, y);
  }

  lemma XorByHalves(a: nat, b: nat, rest: nat)
    requires Xor(a / 2, b / 2) == rest
    ensures Xor(a, b) == (a % 2 + b % 2) % 2 + 2 * rest
  {
    hide Xor;
    XorStep(a, b);
  }

  /** On bytes the recursive exclusive or is the machine's. */
  ghost predicate XorAgrees(x: bv8, y: bv8) {
    Xor(x as nat, y as nat) == (x ^ y) as nat
  }

  lemma XorAgreesStep(x: bv8, y: bv8)
    requires XorAgrees(x >> 1, y >> 1)
    ensures XorAgrees(x, y)
  {
    hide Xor;
    HalfOfByte(x);
    HalfOfByte(y);
    XorByHalves(x as nat, y as nat, ((x >> 1) ^ (y >> 1)) as nat);
    XorSplits(x, y);
  }

  lemma HalfBelow(x: bv8, k: nat)
    requires k > 0 && x as nat < Pow2(k)
    ensures (x >> 1) as nat < Pow2(k - 1)
  {
    HalfOfByte(x);
  }

  lemma OnlyZero(x: bv8)
    requires x as nat < Pow2(0)
    ensures x == 0
  {
  }

  lemma XorAgreesAtZero()
    ensures XorAgrees(0, 0)
  {
  }

  lemma {:induction false} XorAgreesBelow(x: bv8, y: bv8, k: nat)
    requires x as nat < Pow2(k) && y as nat < Pow2(k)
    ensures XorAgrees(x, y)
    decreases k
  {
    hide XorAgrees, Pow2;
    if k == 0 {
      OnlyZero(x);
      OnlyZero(y);
      XorAgreesAtZero();
    } else {
      HalfBelow(x, k);
      HalfBelow(y, k);
      XorAgreesBelow(x >> 1, y >> 1, k - 1);
      XorAgreesStep(x, y);
    }
  }

  lemma XorOfBytes(x: bv8, y: bv8)
    ensures XorAgrees(x, y)
  {
    hide XorAgrees;
    assert Pow2(8) == 256;
    XorAgreesBelow(x, y, 8);
  }

  lemma {:induction false} XorOfNothing(a: nat)
    ensures Xor(a, 0) == a
    decreases a
  {
    if a > 0 {
      XorOfNothing(a / 2);
    }
  }

  lemma XorOfTwoBits(q: nat, i: nat, j: nat, r: nat, k: nat, l: nat)
    requires i < 2 && j < 2 && k < 2 && l < 2
    ensures Xor(4 * q + 2 * i + j, 4 * r + 2 * k + l) == (j + l) % 2 + 2 * ((i + k) % 2) + 4 * Xor(q, r)
  {
    hide Xor;
    XorStep(4 * q + 2 * i + j, 4 * r + 2 * k + l);
    XorStep(2 * q + i, 2 * r + k);
    assert (4 * q + 2 * i + j) / 2 == 2 * q + i && (4 * r + 2 * k + l) / 2 == 2 * r + k;
    assert (2 * q + i) / 2 == q && (2 * r + k) / 2 == r;
  }

  lemma XorOfQuarters(q: nat, i: nat, r: nat, k: nat)
    requires i < 4 && k < 4
    ensures Xor(4 * q + i, 4 * r + k) == Xor(i, k) + 4 * Xor(q, r) && Xor(i, k) < 4
  {
    hide Xor;
    XorOfTwoBits(q, i / 2, i % 2, r, k / 2, k % 2);
    XorOfTwoBits(0, i / 2, i % 2, 0, k / 2, k % 2);
    XorOfNothing(0);
  }

  lemma XorOfNibbles(q: nat, i: nat, j: nat, r: nat, k: nat, l: nat)
    requires i < 4 && j < 4 && k < 4 && l < 4
    ensures Xor(16 * q + 4 * i + j, 16 * r + 4 * k + l) == Xor(4 * i + j, 4 * k + l) + 16 * Xor(q, r)
    ensures Xor(4 * i + j, 4 * k + l) < 16
  {
    hide Xor;
    XorOfQuarters(4 * q + i, j, 4 * r + k, l);
    XorOfQuarters(q, i, r, k);
    XorOfQuarters(i, j, k, l);
  }

  lemma XorOfHexDigits(q: nat, d: nat, r: nat, e: nat)
    requires d < 16 && e < 16
    ensures Xor(16 * q + d, 16 * r + e) == Xor(d, e) + 16 * Xor(q, r) && Xor(d, e) < 16
  {
    hide Xor;
    XorOfNibbles(q, d / 4, d % 4, r, e / 4, e % 4);
  }

  /** The low byte comes from the low bytes, the rest from the rest. */
  lemma XorOfLowBytes(q: nat, d: nat, e: nat, f: nat, g: nat)
    requires d < 16 && e < 16 && f < 16 && g < 16
    ensures Xor(256 * q + 16 * d + e, 16 * f + g) == Xor(16 * d + e, 16 * f + g) + 256 * q
    ensures Xor(16 * d + e, 16 * f + g) < 256
  {
    hide Xor;
    XorOfHexDigits(16 * q + d, e, f, g);
    XorOfHexDigits(q, d, 0, f);
    XorOfHexDigits(d, e, f, g);
    XorOfNothing(q);
  }

  /** A byte reaches no further than the low byte of the state. */
  lemma XorLowByte(h: nat, b: byte)
    ensures Xor(h, b) / 256 == h / 256 && Xor(h, b) % 256 == Xor(h % 256, b)
  {
    hide Xor;
    XorOfLowBytes(h / 256, h % 256 / 16, h % 16, b / 16, b % 16);
    assert h == 256 * (h / 256) + 16 * (h % 256 / 16) + h % 16;
    assert h % 256 == 16 * (h % 256 / 16) + h % 16;
  }

  lemma {:induction false} HashOneMore(w: Width, h: nat, data: seq<byte>, b: byte)
    ensures Hash(w, h, data + [b]) == Step(w, Hash(w, h, data), b)
    decreases |data|
  {
    hide Step;
    if data == [] {
      assert [b][1..] == [] && Hash(w, Step(w, h, b), []) == Step(w, h, b);
      assert data + [b] == [b];
    } else {
      assert (data + [b])[1..] == data[1..] + [b];
      HashOneMore(w, Step(w, h, data[0]), data[1..], b);
    }
  }

  /** One more byte: `x` is the hash so far with the byte taken into its low byte by the machine's
      exclusive or, and then it is multiplied by the prime, modulo the word size. */
  ghost predicate Takes(x: nat, before: nat, b: byte, prime: nat, modulus: nat, after: nat)
    requires modulus > 0
  {
    && x / 256 == before / 256
    && (x % 256) as bv8 == (before % 256) as bv8 ^ (b as bv8)
    && after == x * prime % modulus
  }

  lemma XorTakes(h: nat, b: byte)
    ensures Xor(h, b) / 256 == h / 256 && (Xor(h, b) % 256) as bv8 == (h % 256) as bv8 ^ (b as bv8)
  {
    hide Xor;
    XorLowByte(h, b);
    var x, y := (h % 256) as bv8, b as bv8;
    ByteAsBits(h % 256);
    ByteAsBits(b);
    XorOfBytes(x, y);
  }

  /** FNV-1a, at both widths: the checksum of nothing is the offset basis, and each byte is taken in
      before the multiplication. */
  lemma ChecksumIs(data: seq<byte>, b: byte)
    ensures Fnv1a(W64, []) == 0xcbf2_9ce4_8422_2325 && Fnv1a(W32, []) == 0x811c_9dc5
    ensures exists x: nat :: Takes(x, Fnv1a(W64, data), b, 0x100_0000_01b3, 0x1_0000_0000_0000_0000, Fnv1a(W64, data + [b]))
    ensures exists x: nat :: Takes(x, Fnv1a(W32, data), b, 0x100_0193, 0x1_0000_0000, Fnv1a(W32, data + [b]))
  {
    hide Xor, Takes;
    HashOneMore(W64, W64.Offset(), data, b);
    HashOneMore(W32, W32.Offset(), data, b);
    StepTakes(W64, Fnv1a(W64, data), b);
    StepTakes(W32, Fnv1a(W32, data), b);
    assert Fnv1a(W64, data + [b]) == Step(W64, Fnv1a(W64, data), b);
    assert Fnv1a(W32, data + [b]) == Step(W32, Fnv1a(W32, data), b);
    assert Takes(Xor(Fnv1a(W64, data), b), Fnv1a(W64, data), b, 0x100_0000_01b3, 0x1_0000_0000_0000_0000, Fnv1a(W64, data + [b]));
    assert Takes(Xor(Fnv1a(W32, data), b), Fnv1a(W32, data), b, 0x100_0193, 0x1_0000_0000, Fnv1a(W32, data + [b]));
  }

  lemma StepTakes(w: Width, h: nat, b: byte)
    ensures Takes(Xor(h, b), h, b, w.Prime(), w.Modulus(), Step(w, h, b))
  {
    hide Xor;
    XorTakes(h, b);
  }

  /** The published test vectors for "a". */
  lemma ChecksumOfA()
    ensures Fnv1a(W64, [0x61]) == 0xaf63_dc4c_8601_ec8c
    ensures Fnv1a(W32, [0x61]) == 0xe40c_292c
  {
    hide Xor, Step;
    assert [0x61 as byte] == [] + [0x61];
    HashOneMore(W64, FNV64_OFFSET, [], 0x61);
    HashOneMore(W32, FNV32_OFFSET, [], 0x61);
    OffsetTakesA();
  }

  lemma OffsetTakesA()
    ensures Step(W64, 0xcbf2_9ce4_8422_2325, 0x61) == 0xaf63_dc4c_8601_ec8c
    ensures Step(W32, 0x811c_9dc5, 0x61) == 0xe40c_292c
  {
    hide Xor;
    OffsetsMeetA();
  }

  lemma OffsetsMeetA()
    ensures Xor(0xcbf2_9ce4_8422_2325, 0x61) == 0xcbf2_9ce4_8422_2344 && Xor(0x811c_9dc5, 0x61) == 0x811c_9da4
  {
    hide Xor;
    LowBytesOfA();
    FromParts(0xcbf2_9ce4_8422_2325, 0x61, 0x25, 0x44);
    FromParts(0x811c_9dc5, 0x61, 0xc5, 0xa4);
  }

  lemma FromParts(h: nat, b: byte, low: nat, x: nat)
    requires h % 256 == low && Xor(low, b) == x
    ensures Xor(h, b) == h - low + x
  {
    hide Xor;
    XorLowByte(h, b);
  }

  lemma LowBytesOfA()
    ensures Xor(0x25, 0x61) == 0x44 && Xor(0xc5, 0x61) == 0xa4
  {
    hide Xor;
    XorOfHexDigits(0x2, 0x5, 0x6, 0x1);
    XorOfHexDigits(0xc, 0x5, 0x6, 0x1);
    XorOfTwoBits(0x1, 0, 1, 0x0, 0, 1);
    XorOfTwoBits(0x0, 1, 0, 0x1, 1, 0);
    XorOfTwoBits(0x3, 0, 0, 0x1, 1, 0);
    XorOfTwoBits(0x0, 0, 1, 0x0, 0, 0);
    XorOfTwoBits(0x0, 1, 1, 0x0, 0, 1);
    XorOfTwoBits(0x0, 0, 0, 0x0, 0, 1);
    XorOfNothing(0);
  }
}
