/** Byte layouts: a record is its fields one after the other, and buffers are filled in place. */
module Layout {
  import opened Words

  function Zeros(n: nat): (s: seq<byte>)
    ensures |s| == n && forall i :: 0 <= i < n ==> s[i] == 0
  {
    seq(n, _ => 0)
  }

  function Concat(fields: seq<seq<byte>>): seq<byte> {
    if fields == [] then [] else fields[0] + Concat(fields[1..])
  }

  lemma {:induction false} ConcatInParts(a: seq<seq<byte>>, b: seq<seq<byte>>)
    ensures Concat(a + b) == Concat(a) + Concat(b)
  {
    if a == [] {
      assert a + b == b;
    } else {
      assert (a + b)[1..] == a[1..] + b;
      ConcatInParts(a[1..], b);
    }
  }

  lemma SplitFields(f: seq<seq<byte>>, n: nat)
    requires n <= |f|
    ensures Concat(f) == Concat(f[..n]) + Concat(f[n..])
  {
    assert f == f[..n] + f[n..];
    ConcatInParts(f[..n], f[n..]);
  }

  /** A few fields, one after the other. */
  lemma TwoFields(f: seq<seq<byte>>)
    requires |f| == 2
    ensures Concat(f) == f[0] + f[1]
  {
    assert f[1..][1..] == [];
    assert Concat(f[1..]) == f[1];
  }

  lemma FourFields(f: seq<seq<byte>>)
    requires |f| == 4
    ensures Concat(f) == f[0] + f[1] + f[2] + f[3]
  {
    SplitFields(f, 2);
    TwoFields(f[..2]);
    TwoFields(f[2..]);
  }

  /** Where field `i` starts. */
  function Offset(fields: seq<seq<byte>>, i: nat): nat
    requires i <= |fields|
  {
    if i == 0 then 0 else |fields[0]| + Offset(fields[1..], i - 1)
  }

  lemma {:induction false} ConcatLength(fields: seq<seq<byte>>)
    ensures |Concat(fields)| == Offset(fields, |fields|)
  {
    if fields != [] {
      ConcatLength(fields[1..]);
    }
  }

  /** The next field starts where this one ends. */
  lemma {:induction false} OffsetStep(fields: seq<seq<byte>>, i: nat)
    requires i < |fields|
    ensures Offset(fields, i + 1) == Offset(fields, i) + |fields[i]|
    ensures Offset(fields, 0) == 0
  {
    if i > 0 {
      OffsetStep(fields[1..], i - 1);
    }
  }

  /** Reading a field back at its offset gives the field. */
  lemma {:induction false} FieldAt(fields: seq<seq<byte>>, i: nat)
    requires i < |fields|
    ensures Offset(fields, i) + |fields[i]| <= |Concat(fields)|
    ensures Concat(fields)[Offset(fields, i)..Offset(fields, i) + |fields[i]|] == fields[i]
  {
    if i > 0 {
      FieldAt(fields[1..], i - 1);
      var at := Offset(fields[1..], i - 1);
      assert Concat(fields)[|fields[0]|..] == Concat(fields[1..]);
      assert Concat(fields)[|fields[0]| + at..|fields[0]| + at + |fields[i]|] == Concat(fields[1..])[at..at + |fields[i]|];
    }
  }

  /** A string that reads as the given fields is their concatenation. */
  lemma {:induction false} AssembledIs(s: seq<byte>, fields: seq<seq<byte>>)
    requires |s| == Offset(fields, |fields|)
    requires forall i :: 0 <= i < |fields| ==> Offset(fields, i) + |fields[i]| <= |s|
    requires forall i :: 0 <= i < |fields| ==> s[Offset(fields, i)..Offset(fields, i) + |fields[i]|] == fields[i]
    ensures s == Concat(fields)
  {
    if fields != [] {
      var n := |fields[0]|;
      assert s[Offset(fields, 0)..Offset(fields, 0) + n] == fields[0];
      var rest, tail := fields[1..], s[n..];
      forall i | 0 <= i < |rest|
        ensures Offset(rest, i) + |rest[i]| <= |tail|
        ensures tail[Offset(rest, i)..Offset(rest, i) + |rest[i]|] == rest[i]
      {
        assert Offset(fields, i + 1) == n + Offset(rest, i);
        assert s[Offset(fields, i + 1)..Offset(fields, i + 1) + |fields[i + 1]|] == fields[i + 1];
      }
      AssembledIs(tail, rest);
      assert s == s[..n] + tail;
    }
  }

  lemma {:induction false} OffsetsGrow(fields: seq<seq<byte>>, i: nat, j: nat)
    requires i < j <= |fields|
    ensures Offset(fields, i) + |fields[i]| <= Offset(fields, j)
    decreases j
  {
    if i + 1 < j {
      OffsetsGrow(fields, i, j - 1);
    }
    OffsetStep(fields, j - 1);
  }

  /** The first `k` fields stand in `s`, and what follows is still as in `base`. */
  ghost predicate Placed(s: seq<byte>, base: seq<byte>, fields: seq<seq<byte>>, k: nat) {
    && k <= |fields| && Offset(fields, k) <= |s| == |base|
    && (forall i :: 0 <= i < k ==>
          Offset(fields, i) + |fields[i]| <= |s|
          && s[Offset(fields, i)..Offset(fields, i) + |fields[i]|] == fields[i])
    && s[Offset(fields, k)..] == base[Offset(fields, k)..]
  }

  lemma NonePlaced(base: seq<byte>, fields: seq<seq<byte>>)
    ensures Placed(base, base, fields, 0)
  {
  }

  /** Writing the next field at its offset places it and disturbs no other. */
  lemma PlaceNext(s: seq<byte>, base: seq<byte>, fields: seq<seq<byte>>, k: nat)
    requires Placed(s, base, fields, k) && k < |fields| && Offset(fields, k) + |fields[k]| <= |s|
    ensures Placed(Splice(s, Offset(fields, k), fields[k]), base, fields, k + 1)
  {
    hide Offset;
    var at := Offset(fields, k);
    var t := Splice(s, at, fields[k]);
    OffsetStep(fields, k);
    forall i | 0 <= i < k + 1
      ensures Offset(fields, i) + |fields[i]| <= |t|
      ensures t[Offset(fields, i)..Offset(fields, i) + |fields[i]|] == fields[i]
    {
      if i < k {
        OffsetsGrow(fields, i, k);
        SpliceSpares(s, at, fields[k], Offset(fields, i), |fields[i]|);
      }
    }
    assert t[at + |fields[k]|..] == s[at..][|fields[k]|..];
  }

  lemma SpliceSpares(s: seq<byte>, at: nat, b: seq<byte>, off: nat, n: nat)
    requires at + |b| <= |s| && off + n <= at
    ensures Splice(s, at, b)[off..off + n] == s[off..off + n]
  {
  }

  /** A reserved field of a zeroed buffer needs no write. */
  lemma SkipZeros(s: seq<byte>, fields: seq<seq<byte>>, k: nat)
    requires Placed(s, Zeros(|s|), fields, k) && k < |fields| && fields[k] == Zeros(|fields[k]|)
    requires Offset(fields, k) + |fields[k]| <= |s|
    ensures Placed(s, Zeros(|s|), fields, k + 1)
  {
    hide Offset;
    OffsetStep(fields, k);
    var at, n := Offset(fields, k), |fields[k]|;
    assert s[at..at + n] == s[at..][..n] == fields[k];
    assert s[at + n..] == s[at..][n..];
  }

  /** When every field is placed, the buffer starts with their concatenation and is otherwise
      as it was. */
  lemma AllPlaced(s: seq<byte>, base: seq<byte>, fields: seq<seq<byte>>)
    requires Placed(s, base, fields, |fields|)
    ensures s == Concat(fields) + base[Offset(fields, |fields|)..]
    ensures |Concat(fields)| == Offset(fields, |fields|)
  {
    var n := Offset(fields, |fields|);
    forall i | 0 <= i < |fields|
      ensures Offset(fields, i) + |fields[i]| <= n
      ensures s[..n][Offset(fields, i)..Offset(fields, i) + |fields[i]|] == fields[i]
    {
      OffsetsGrow(fields, i, |fields|);
    }
    AssembledIs(s[..n], fields);
    assert s == s[..n] + s[n..];
  }

  lemma {:induction false} OffsetAppend(a: seq<seq<byte>>, b: seq<seq<byte>>, i: nat)
    requires i <= |b|
    ensures Offset(a + b, |a| + i) == Offset(a, |a|) + Offset(b, i)
  {
    if a == [] {
      assert a + b == b;
    } else {
      assert (a + b)[1..] == a[1..] + b;
      OffsetAppend(a[1..], b, i);
    }
  }

  lemma {:induction false} OffsetPrefix(a: seq<seq<byte>>, b: seq<seq<byte>>, i: nat)
    requires i <= |a|
    ensures Offset(a + b, i) == Offset(a, i)
  {
    if i > 0 {
      assert (a + b)[1..] == a[1..] + b;
      OffsetPrefix(a[1..], b, i - 1);
    }
  }

  /** Fields of one size start at its multiples. */
  lemma {:induction false} OffsetUniform(fields: seq<seq<byte>>, size: nat, i: nat)
    requires i <= |fields| && forall k :: 0 <= k < |fields| ==> |fields[k]| == size
    ensures Offset(fields, i) == i * size
  {
    if i > 0 {
      OffsetUniform(fields[1..], size, i - 1);
    }
  }

  /** The number stored little-endian in `n` bytes at `off`. */
  function NumberAt(s: seq<byte>, off: nat, n: nat): (v: nat)
    requires off + n <= |s|
    ensures v < Pow256(n)
  {
    LeOfFromLe(s[off..off + n]);
    FromLe(s[off..off + n])
  }

  function U32At(s: seq<byte>, off: nat): u32
    requires off + 4 <= |s|
  {
    WordBounds();
    NumberAt(s, off, 4)
  }

  function U64At(s: seq<byte>, off: nat): u64
    requires off + 8 <= |s|
  {
    WordBounds();
    NumberAt(s, off, 8)
  }

  /** A little-endian field reads back as its number. */
  lemma NumberFieldAt(fields: seq<seq<byte>>, i: nat, v: nat, n: nat)
    requires i < |fields| && fields[i] == Le(v, n) && v < Pow256(n)
    ensures Offset(fields, i) + n <= |Concat(fields)|
    ensures NumberAt(Concat(fields), Offset(fields, i), n) == v
  {
    FieldAt(fields, i);
    FromLeOfLe(v, n);
  }

  /** A number field of a buffer's prefix reads the same in the whole buffer. */
  lemma NumberInPrefix(a: seq<byte>, b: seq<byte>, off: nat, n: nat)
    requires off + n <= |a|
    ensures (a + b)[off..off + n] == a[off..off + n]
    ensures NumberAt(a + b, off, n) == NumberAt(a, off, n)
  {
    assert (a + b)[off..off + n] == a[off..off + n];
  }

  /** A number read from `n` bytes writes the same `n` bytes. */
  lemma NumberWritesBack(b: seq<byte>, off: nat, n: nat)
    requires off + n <= |b|
    ensures Le(NumberAt(b, off, n), n) == b[off..off + n]
  {
    LeOfFromLe(b[off..off + n]);
  }

  lemma SubSlice(s: seq<byte>, off: nat, end: nat, i: nat, j: nat)
    requires off <= end <= |s| && i <= j <= end - off
    ensures s[off..end][i..j] == s[off + i..off + j]
  {
    var x, y := s[off..end][i..j], s[off + i..off + j];
    forall k | 0 <= k < j - i
      ensures x[k] == y[k]
    {
      assert x[k] == s[off..end][i + k] == s[off + i + k];
    }
  }

  lemma SpliceOne(s: seq<byte>, at: nat, b: byte)
    requires at < |s|
    ensures s[at := b] == Splice(s, at, [b])
  {
  }

  lemma SpliceTwice(s: seq<byte>, off: nat, a: seq<byte>, b: seq<byte>)
    requires off + |a| + |b| <= |s|
    ensures Splice(Splice(s, off, a), off + |a|, b) == Splice(s, off, a + b)
    ensures Splice(Splice(s, off + |a|, b), off, a) == Splice(s, off, a + b)
    ensures Splice(s, off, []) == s
  {
  }

  /** Copies `b` over part of a buffer, byte by byte. */
  method CopyBytes(out: array<byte>, off: nat, b: seq<byte>)
    requires off + |b| <= out.Length
    modifies out
    ensures out[..] == Splice(old(out[..]), off, b)
  {
    hide Splice;
    ghost var before := out[..];
    SpliceTwice(before, off, [], []);
    var i := 0;
    while i < |b|
      invariant 0 <= i <= |b|
      invariant out[..] == Splice(before, off, b[..i])
    {
      SpliceOne(out[..], off + i, b[i]);
      SpliceTwice(before, off, b[..i], [b[i]]);
      assert b[..i + 1] == b[..i] + [b[i]];
      out[off + i] := b[i];
      i := i + 1;
    }
    assert b[..i] == b;
  }
}
