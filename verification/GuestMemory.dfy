/** Guest RAM: one contiguous region based at guest-physical 0 (tb-vmm/src/memory.rs). */
module GuestMemory {
  import opened Words

  /** Reads `n` bytes, or fails if they are not all in RAM (`read_slice`). */
  function Read(ram: seq<byte>, addr: nat, n: nat): Option<seq<byte>> {
    if addr + n <= |ram| then Some(ram[addr..addr + n]) else None
  }

  function ReadWord(ram: seq<byte>, addr: nat, n: nat): (r: Option<nat>)
    ensures r.Some? ==> r.value < Pow256(n)
  {
    match Read(ram, addr, n)
    case None => None
    case Some(b) => LeOfFromLe(b); Some(FromLe(b))
  }

  /** Writes `b` and says whether all of it fitted; the part that fits is written either way
      (`write_slice`). */
  function Write(ram: seq<byte>, addr: nat, b: seq<byte>): (r: (seq<byte>, bool))
    ensures |r.0| == |ram|
    ensures r.1 <==> addr + |b| <= |ram|
  {
    if addr + |b| <= |ram| then (Splice(ram, addr, b), true)
    else if addr < |ram| then (Splice(ram, addr, b[..|ram| - addr]), false)
    else (ram, false)
  }

  /** A write puts its bytes at their addresses as far as memory goes, and nothing else. */
  lemma WriteBytes(ram: seq<byte>, addr: nat, b: seq<byte>)
    ensures forall a :: 0 <= a < |ram| ==>
              Write(ram, addr, b).0[a] == if addr <= a < addr + |b| then b[a - addr] else ram[a]
    ensures Read(ram, addr, |b|).Some? <==> Write(ram, addr, b).1
    ensures Write(ram, addr, b).1 ==> Read(Write(ram, addr, b).0, addr, |b|) == Some(b)
  {
    hide Splice;
    if addr + |b| <= |ram| {
      SpliceBytes(ram, addr, b);
      assert Write(ram, addr, b).0[addr..addr + |b|] == b;
    } else if addr < |ram| {
      SpliceBytes(ram, addr, b[..|ram| - addr]);
    }
  }

  /** The word at an address is the number written there, lowest byte first. */
  lemma ReadWordIs(ram: seq<byte>, addr: nat, n: nat)
    ensures ReadWord(ram, addr, n).Some? <==> addr + n <= |ram|
    ensures addr + n <= |ram| ==> ram[addr..addr + n] == Le(ReadWord(ram, addr, n).value, n)
  {
    hide Le, FromLe;
    if addr + n <= |ram| {
      LeOfFromLe(ram[addr..addr + n]);
    }
  }

  /** The two memories hold the same bytes at the addresses in `g`. */
  ghost predicate SameOn(ram: seq<byte>, ram': seq<byte>, g: set<nat>) {
    && |ram| == |ram'|
    && forall a :: a in g && a < |ram| ==> ram[a] == ram'[a]
  }

  /** The addresses `addr .. addr + n` lie in `g`. */
  ghost predicate Inside(addr: nat, n: nat, g: set<nat>) {
    forall a :: addr <= a < addr + n ==> a in g
  }

  /** The addresses `addr .. addr + n` keep out of `g`. */
  ghost predicate Outside(addr: nat, n: nat, g: set<nat>) {
    forall a :: addr <= a < addr + n ==> a !in g
  }

  /** The addresses `at .. at + n`. */
  ghost function Span(at: nat, n: nat): (r: set<nat>)
    ensures forall a :: a in r <==> at <= a < at + n
  {
    if n == 0 then {} else Span(at, n - 1) + {at + n - 1}
  }

  lemma ReadsSame(ram: seq<byte>, ram': seq<byte>, g: set<nat>, addr: nat, n: nat)
    requires SameOn(ram, ram', g) && Inside(addr, n, g)
    ensures Read(ram, addr, n) == Read(ram', addr, n)
    ensures ReadWord(ram, addr, n) == ReadWord(ram', addr, n)
  {
    if addr + n <= |ram| {
      assert ram[addr..addr + n] == ram'[addr..addr + n];
    }
  }

  lemma WriteMisses(ram: seq<byte>, addr: nat, b: seq<byte>, g: set<nat>)
    requires Outside(addr, |b|, g)
    ensures SameOn(ram, Write(ram, addr, b).0, g)
  {
  }

  lemma WriteNothing(ram: seq<byte>, addr: nat)
    ensures Write(ram, addr, []).0 == ram
  {
  }
}
