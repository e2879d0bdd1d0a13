/** Machine words, optional values, and little-endian byte strings. */
module Words {

  type byte = b: int | 0 <= b < 0x100
  type u16 = x: int | 0 <= x < 0x1_0000
  type u32 = x: int | 0 <= x < 0x1_0000_0000
  type u64 = x: int | 0 <= x < 0x1_0000_0000_0000_0000

  lemma BitsAsByte(x: bv8)
    ensures (x as nat) as bv8 == x
  {
  }

  lemma NextAsBits(x: bv8)
    ensures x != 255 ==> (x + 1) as nat == x as nat + 1
  {
  }

  lemma LastAsBits()
    ensures (255 as bv8) as nat == 255
  {
  }

  /** A byte is the number its eight bits spell. */
  lemma {:induction false} ByteAsBits(b: byte)
    ensures (b as bv8) as nat == b
    decreases b
  {
    if b > 0 {
      ByteAsBits(b - 1);
      var x := (b - 1) as bv8;
      NextAsBits(x);
      LastAsBits();
      BitsAsByte(x + 1);
    }
  }

  const TWO32 := 0x1_0000_0000
  const TWO64 := 0x1_0000_0000_0000_0000

  datatype Option<+T> = None | Some(value: T)

  datatype Result<+T, +E> = Ok(value: T) | Err(error: E)

  /** `a.wrapping_add(b)` on 64-bit words. */
  function Wrap64(x: nat): u64 {
    x % TWO64
  }

  function Pow256(n: nat): nat
    ensures Pow256(n) >= 1
  {
    if n == 0 then 1 else 256 * Pow256(n - 1)
  }

  /** The low `n` bytes of `v`, least significant first (`to_le_bytes`). */
  function Le(v: nat, n: nat): (s: seq<byte>)
    ensures |s| == n
    decreases v, n
  {
    if n == 0 then [] else [v % 256] + Le(v / 256, n - 1)
  }

  lemma TwoBytes(v: nat)
    ensures Le(v, 2) == [v % 0x100, v / 0x100 % 0x100]
  {
    assert Le(v / 0x100, 1) == [v / 0x100 % 0x100] + Le(v / 0x100 / 0x100, 0);
  }

  lemma LeInParts(v: nat, n: nat)
    ensures Le(v, n + 2) == Le(v, 2) + Le(v / 0x1_0000, n)
  {
    TwoBytes(v);
    assert v / 0x100 / 0x100 == v / 0x1_0000;
    assert Le(v, n + 2) == [v % 0x100] + Le(v / 0x100, n + 1);
    assert Le(v / 0x100, n + 1) == [v / 0x100 % 0x100] + Le(v / 0x100 / 0x100, n);
  }

  /** Words of 16, 32 and 64 bits, lowest byte first. */
  lemma LeBytes(v: nat)
    ensures Le(v, 2) == [v % 0x100, v / 0x100 % 0x100]
    ensures Le(v, 4) == [v % 0x100, v / 0x100 % 0x100, v / 0x1_0000 % 0x100, v / 0x100_0000 % 0x100]
    ensures Le(v, 8) == [v % 0x100, v / 0x100 % 0x100, v / 0x1_0000 % 0x100, v / 0x100_0000 % 0x100,
                         v / 0x1_0000_0000 % 0x100, v / 0x100_0000_0000 % 0x100,
                         v / 0x1_0000_0000_0000 % 0x100, v / 0x100_0000_0000_0000 % 0x100]
  {
    hide Le;
    TwoBytes(v);
    FourBytes(v);
    FourBytes(v / 0x1_0000_0000);
    LeInParts(v, 6);
    LeInParts(v / 0x1_0000, 4);
    LeInParts(v, 2);
    assert v / 0x1_0000 / 0x1_0000 == v / 0x1_0000_0000;
    assert Le(v, 8) == Le(v, 4) + Le(v / 0x1_0000_0000, 4) by {
      assert (Le(v, 2) + Le(v / 0x1_0000, 2)) + Le(v / 0x1_0000_0000, 4)
          == Le(v, 2) + (Le(v / 0x1_0000, 2) + Le(v / 0x1_0000_0000, 4));
    }
    HighQuotients(v);
  }

  lemma FourBytes(v: nat)
    ensures Le(v, 4) == [v % 0x100, v / 0x100 % 0x100, v / 0x1_0000 % 0x100, v / 0x100_0000 % 0x100]
  {
    hide Le;
    TwoBytes(v);
    TwoBytes(v / 0x1_0000);
    LeInParts(v, 2);
    assert v / 0x1_0000 / 0x100 == v / 0x100_0000;
  }

  lemma HighQuotients(v: nat)
    ensures var w := v / 0x1_0000_0000;
            && w / 0x100 == v / 0x100_0000_0000 && w / 0x1_0000 == v / 0x1_0000_0000_0000
            && w / 0x100_0000 == v / 0x100_0000_0000_0000
  {
  }

  /** The number a little-endian byte string denotes (`from_le_bytes`). */
  function FromLe(s: seq<byte>): nat {
    if s == [] then 0 else s[0] + 256 * FromLe(s[1..])
  }

  lemma {:induction false} FromLeOfLe(v: nat, n: nat)
    requires v < Pow256(n)
    ensures FromLe(Le(v, n)) == v
  {
    if n > 0 {
      FromLeOfLe(v / 256, n - 1);
      assert Le(v, n)[1..] == Le(v / 256, n - 1);
    }
  }

  lemma {:induction false} LeOfFromLe(s: seq<byte>)
    ensures FromLe(s) < Pow256(|s|)
    ensures Le(FromLe(s), |s|) == s
  {
    if s != [] {
      LeOfFromLe(s[1..]);
      assert FromLe(s) % 256 == s[0] && FromLe(s) / 256 == FromLe(s[1..]);
    }
  }

  lemma WordBounds()
    ensures Pow256(2) == 0x1_0000 && Pow256(4) == TWO32 && Pow256(8) == TWO64
  {
  }

  /** `s` with the bytes at `at..at + |b|` replaced by `b` (`copy_from_slice` into a subslice). */
  function Splice(s: seq<byte>, at: nat, b: seq<byte>): (r: seq<byte>)
    requires at + |b| <= |s|
    ensures |r| == |s|
  {
    s[..at] + b + s[at + |b|..]
  }

  /** `Splice`, byte by byte. */
  lemma SpliceBytes(s: seq<byte>, at: nat, b: seq<byte>)
    requires at + |b| <= |s|
    ensures forall i :: 0 <= i < |s| ==> Splice(s, at, b)[i] == if at <= i < at + |b| then b[i - at] else s[i]
  {
  }
}
