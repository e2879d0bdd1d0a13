/** The ELF64 kernel loader (tb-vmm/src/loader.rs): program headers, segments into guest RAM,
    and the search for the 64-bit entry note. File offsets and addresses add up without
    overflow. */
module ElfLoader {
  import opened Words
  import opened Layout
  import opened GuestMemory

  const EM_X86_64 := 62
  const PT_LOAD: u32 := 1
  const PT_NOTE: u32 := 4
  const EHDR_SIZE := 64
  const PHDR_SIZE := 56

  /** "\x7fELF" */
  const ELF_MAGIC: seq<byte> := [0x7F, 0x45, 0x4C, 0x46]

  /** "YUVA" */
  const TB_NOTE_NAME: seq<byte> := [0x59, 0x55, 0x56, 0x41]
  const TB_NOTE_TYPE_ENTRY64: u32 := 0x5955_0001

  datatype LoaderError =
    | Truncated
    | BadMagic
    | NotElf64Le
    | BadMachine(machine: u16)
    | SegmentOutOfFile(index: nat)
    | BadSegmentSize(index: nat)
    | NoLoadSegments
    | MissingTbNote
    | GuestWrite(paddr: nat)

  datatype Phdr = Phdr(pType: u32, offset: u64, paddr: u64, filesz: u64, memsz: u64) {
    /** A segment the loader copies. */
    predicate Loads() {
      pType == PT_LOAD && memsz != 0
    }

    /** Loaded, and holding guest address `a`. */
    predicate Covers(a: int) {
      pType == 1 && paddr <= a < paddr + memsz
    }
  }

  // ---- Program headers -----------------------------------------------------------------

  function ReadAt(b: seq<byte>, off: nat, n: nat): (r: Result<nat, LoaderError>)
    ensures r.Ok? ==> r.value < Pow256(n)
  {
    if off + n <= |b| then Ok(NumberAt(b, off, n)) else Err(Truncated)
  }

  function PhdrAt(image: seq<byte>, base: nat): Result<Phdr, LoaderError> {
    WordBounds();
    var t, o := ReadAt(image, base, 4), ReadAt(image, base + 8, 8);
    var p, f, m := ReadAt(image, base + 24, 8), ReadAt(image, base + 32, 8), ReadAt(image, base + 40, 8);
    if t.Err? || o.Err? || p.Err? || f.Err? || m.Err? then Err(Truncated)
    else Ok(Phdr(t.value, o.value, p.value, f.value, m.value))
  }

  /** The headers from index `i` on. */
  function PhdrsFrom(image: seq<byte>, phoff: nat, entsize: nat, i: nat, num: nat): Result<seq<Phdr>, LoaderError>
    requires i <= num
    decreases num - i
  {
    if i == num then Ok([]) else
    var ph := PhdrAt(image, phoff + i * entsize);
    if ph.Err? then Err(ph.error) else
    var rest := PhdrsFrom(image, phoff, entsize, i + 1, num);
    if rest.Err? then rest else Ok([ph.value] + rest.value)
  }

  function Phdrs(image: seq<byte>): Result<seq<Phdr>, LoaderError> {
    if |image| < EHDR_SIZE then Err(Truncated)
    else if image[..4] != ELF_MAGIC then Err(BadMagic)
    else if image[4] != 2 || image[5] != 1 then Err(NotElf64Le)
    else
      WordBounds();
      var machine: u16 := NumberAt(image, 18, 2);
      if machine != EM_X86_64 then Err(BadMachine(machine))
      else if NumberAt(image, 54, 2) < PHDR_SIZE then Err(Truncated)
      else PhdrsFrom(image, NumberAt(image, 32, 8), NumberAt(image, 54, 2), 0, NumberAt(image, 56, 2))
  }

  /** The header fields the loader uses, at their offsets in an `Elf64_Phdr` at `base`. */
  ghost predicate HeaderAt(image: seq<byte>, base: nat, ph: Phdr) {
    && base + 48 <= |image|
    && image[base..base + 4] == Le(ph.pType, 4)
    && image[base + 8..base + 16] == Le(ph.offset, 8)
    && image[base + 24..base + 32] == Le(ph.paddr, 8)
    && image[base + 32..base + 40] == Le(ph.filesz, 8)
    && image[base + 40..base + 48] == Le(ph.memsz, 8)
  }

  /** A 64-bit little-endian x86-64 ELF image with entries of a full header's size. */
  ghost predicate IsElf64(image: seq<byte>) {
    && |image| >= EHDR_SIZE
    && image[..6] == ELF_MAGIC + [2, 1]
    && image[18..20] == Le(EM_X86_64, 2)
    && NumberAt(image, 54, 2) >= PHDR_SIZE
  }

  lemma PhdrAtReads(image: seq<byte>, base: nat)
    ensures PhdrAt(image, base).Ok? <==> base + 48 <= |image|
    ensures PhdrAt(image, base).Ok? ==> HeaderAt(image, base, PhdrAt(image, base).value)
  {
    hide NumberAt, Le;
    if base + 48 <= |image| {
      NumberWritesBack(image, base, 4);
      NumberWritesBack(image, base + 8, 8);
      NumberWritesBack(image, base + 24, 8);
      NumberWritesBack(image, base + 32, 8);
      NumberWritesBack(image, base + 40, 8);
    }
  }

  lemma {:induction false} PhdrsFromReads(image: seq<byte>, phoff: nat, entsize: nat, i: nat, num: nat)
    requires i <= num
    ensures PhdrsFrom(image, phoff, entsize, i, num).Ok? <==>
            forall k: nat :: i <= k < num ==> EntryInFile(image, phoff, entsize, k)
    ensures PhdrsFrom(image, phoff, entsize, i, num).Ok? ==> |PhdrsFrom(image, phoff, entsize, i, num).value| == num - i
    decreases num - i
  {
    hide PhdrAt, HeaderAt;
    if i < num {
      PhdrAtReads(image, phoff + i * entsize);
      PhdrsFromReads(image, phoff, entsize, i + 1, num);
      assert EntryInFile(image, phoff, entsize, i) <==> PhdrAt(image, phoff + i * entsize).Ok?;
    }
  }

  lemma {:induction false} PhdrsFromEach(image: seq<byte>, phoff: nat, entsize: nat, i: nat, num: nat, k: nat)
    requires i <= k < num && PhdrsFrom(image, phoff, entsize, i, num).Ok?
    requires |PhdrsFrom(image, phoff, entsize, i, num).value| == num - i
    ensures HeaderAt(image, EntryAt(phoff, entsize, k), PhdrsFrom(image, phoff, entsize, i, num).value[k - i])
    decreases num - i
  {
    hide PhdrAt, HeaderAt;
    if i == k {
      PhdrAtReads(image, phoff + i * entsize);
    } else {
      PhdrsFromEach(image, phoff, entsize, i + 1, num, k);
    }
  }

  /** Where the file puts program header `k`. */
  ghost function EntryAt(phoff: nat, entsize: nat, k: nat): nat {
    phoff + k * entsize
  }

  ghost predicate EntryInFile(image: seq<byte>, phoff: nat, entsize: nat, k: nat) {
    EntryAt(phoff, entsize, k) + 48 <= |image|
  }

  /** The program headers parse exactly when the image is what the loader wants and every entry
      lies in the file; then there are as many as announced, each read from its own entry. */
  lemma PhdrsIff(image: seq<byte>)
    ensures Phdrs(image).Ok? <==>
            && IsElf64(image)
            && forall k: nat :: k < NumberAt(image, 56, 2) ==>
                 EntryInFile(image, NumberAt(image, 32, 8), NumberAt(image, 54, 2), k)
    ensures Phdrs(image).Ok? ==>
              && |Phdrs(image).value| == NumberAt(image, 56, 2)
              && forall k: nat :: k < |Phdrs(image).value| ==>
                   HeaderAt(image, EntryAt(NumberAt(image, 32, 8), NumberAt(image, 54, 2), k), Phdrs(image).value[k])
  {
    hide PhdrsFrom, NumberAt, Le, HeaderAt, EntryAt;
    if |image| >= EHDR_SIZE {
      WordBounds();
      MachineIs(image);
      IdentIs(image);
      var phoff, entsize, num := NumberAt(image, 32, 8), NumberAt(image, 54, 2), NumberAt(image, 56, 2);
      PhdrsFromReads(image, phoff, entsize, 0, num);
      if Phdrs(image).Ok? {
        forall k: nat | k < num
          ensures HeaderAt(image, EntryAt(phoff, entsize, k), Phdrs(image).value[k])
        {
          PhdrsFromEach(image, phoff, entsize, 0, num, k);
        }
      }
    }
  }

  /** Why an image is refused before any header is read, and that otherwise only a header can be
      missing. */
  lemma PhdrVerdicts(image: seq<byte>)
    ensures |image| < 64 ==> Phdrs(image) == Err(Truncated)
    ensures |image| >= 64 && image[..4] != [0x7F, 0x45, 0x4C, 0x46] ==> Phdrs(image) == Err(BadMagic)
    ensures |image| >= 64 && image[..4] == [0x7F, 0x45, 0x4C, 0x46] ==>
              && (!(image[4] == 2 && image[5] == 1) ==> Phdrs(image) == Err(NotElf64Le))
              && (image[4] == 2 && image[5] == 1 && image[18..20] != [62, 0] ==>
                    Phdrs(image).Err? && Phdrs(image).error.BadMachine?
                    && Le(Phdrs(image).error.machine, 2) == image[18..20])
              && (image[4] == 2 && image[5] == 1 && image[18..20] == [62, 0] ==>
                    && (Phdrs(image).Ok? || Phdrs(image) == Err(Truncated))
                    && (Phdrs(image).Ok? ==> NumberAt(image, 54, 2) >= 56))
  {
    hide NumberAt, Le, FromLe, PhdrsFrom;
    if |image| >= 64 {
      MachineIs(image);
      LeBytes(62);
      NumberWritesBack(image, 18, 2);
      WordBounds();
      HeadersOrTruncated(image, NumberAt(image, 32, 8), NumberAt(image, 54, 2), 0, NumberAt(image, 56, 2));
    }
  }

  lemma {:induction false} HeadersOrTruncated(image: seq<byte>, phoff: nat, entsize: nat, i: nat, num: nat)
    requires i <= num
    ensures PhdrsFrom(image, phoff, entsize, i, num).Ok? || PhdrsFrom(image, phoff, entsize, i, num) == Err(Truncated)
    decreases num - i
  {
    if i < num {
      HeadersOrTruncated(image, phoff, entsize, i + 1, num);
    }
  }

  lemma MachineIs(image: seq<byte>)
    requires |image| >= EHDR_SIZE
    ensures NumberAt(image, 18, 2) == EM_X86_64 <==> image[18..20] == Le(EM_X86_64, 2)
  {
    hide Le, FromLe;
    WordBounds();
    NumberWritesBack(image, 18, 2);
    FromLeOfLe(EM_X86_64, 2);
  }

  lemma IdentIs(image: seq<byte>)
    requires |image| >= EHDR_SIZE
    ensures image[..6] == ELF_MAGIC + [2, 1] <==> image[..4] == ELF_MAGIC && image[4] == 2 && image[5] == 1
  {
    var want := ELF_MAGIC + [2, 1];
    assert image[..6] == image[..4] + [image[4], image[5]];
    if image[..6] == want {
      assert image[..4] == image[..6][..4] == want[..4] == ELF_MAGIC;
      assert image[4] == image[..6][4] && image[5] == image[..6][5];
    }
  }

  method ParsePhdrs(image: seq<byte>) returns (r: Result<seq<Phdr>, LoaderError>)
    ensures r == Phdrs(image)
  {
    hide PhdrAt, NumberAt;
    if |image| < EHDR_SIZE {
      return Err(Truncated);
    }
    if image[..4] != ELF_MAGIC {
      return Err(BadMagic);
    }
    if image[4] != 2 || image[5] != 1 {
      return Err(NotElf64Le);
    }
    WordBounds();
    var machine: u16 := NumberAt(image, 18, 2);
    if machine != EM_X86_64 {
      return Err(BadMachine(machine));
    }
    var phoff, entsize, num := NumberAt(image, 32, 8), NumberAt(image, 54, 2), NumberAt(image, 56, 2);
    if entsize < PHDR_SIZE {
      return Err(Truncated);
    }
    var phdrs: seq<Phdr> := [];
    NoHeadersYet(PhdrsFrom(image, phoff, entsize, 0, num));
    for i := 0 to num
      invariant Phdrs(image) == AfterHeaders(phdrs, PhdrsFrom(image, phoff, entsize, i, num))
    {
      var ph := PhdrAt(image, phoff + i * entsize);
      if ph.Err? {
        return Err(ph.error);
      }
      HeadersGrow(phdrs, ph.value, PhdrsFrom(image, phoff, entsize, i + 1, num));
      phdrs := phdrs + [ph.value];
    }
    assert phdrs + [] == phdrs;
    r := Ok(phdrs);
  }

  function AfterHeaders(done: seq<Phdr>, rest: Result<seq<Phdr>, LoaderError>): Result<seq<Phdr>, LoaderError> {
    if rest.Err? then rest else Ok(done + rest.value)
  }

  lemma NoHeadersYet(rest: Result<seq<Phdr>, LoaderError>)
    ensures AfterHeaders([], rest) == rest
  {
    if rest.Ok? {
      assert [] + rest.value == rest.value;
    }
  }

  lemma HeadersGrow(done: seq<Phdr>, ph: Phdr, rest: Result<seq<Phdr>, LoaderError>)
    ensures AfterHeaders(done + [ph], rest) == AfterHeaders(done, if rest.Err? then rest else Ok([ph] + rest.value))
  {
    if rest.Ok? {
      assert (done + [ph]) + rest.value == done + ([ph] + rest.value);
    }
  }

  // ---- Loading segments -------------------------------------------------------------------

  /** Copies one segment, zeroing its tail; memory keeps what was written before a failure. */
  function LoadSegment(image: seq<byte>, ram: seq<byte>, ph: Phdr, index: nat): (r: (seq<byte>, Option<LoaderError>))
    ensures |r.0| == |ram|
  {
    if !ph.Loads() then (ram, None)
    else if ph.filesz > ph.memsz then (ram, Some(BadSegmentSize(index)))
    else if ph.offset + ph.filesz > |image| then (ram, Some(SegmentOutOfFile(index)))
    else
      var (ram1, ok1) := Write(ram, ph.paddr, image[ph.offset..ph.offset + ph.filesz]);
      if !ok1 then (ram1, Some(GuestWrite(ph.paddr)))
      else if ph.memsz == ph.filesz then (ram1, None)
      else
        var dst := ph.paddr + ph.filesz;
        var (ram2, ok2) := Write(ram1, dst, Zeros(ph.memsz - ph.filesz));
        (ram2, if ok2 then None else Some(GuestWrite(dst)))
  }

  /** Loads the segments from index `i` on, in order, until one fails. */
  function LoadFrom(image: seq<byte>, phdrs: seq<Phdr>, i: nat, ram: seq<byte>): (r: (seq<byte>, Option<LoaderError>))
    requires i <= |phdrs|
    ensures |r.0| == |ram|
    decreases |phdrs| - i
  {
    if i == |phdrs| then (ram, None) else
    var (ram1, e) := LoadSegment(image, ram, phdrs[i], i);
    if e.Some? then (ram1, e) else LoadFrom(image, phdrs, i + 1, ram1)
  }

  predicate AnyLoads(phdrs: seq<Phdr>, n: nat)
    requires n <= |phdrs|
  {
    exists i :: 0 <= i < n && phdrs[i].Loads()
  }

  /** The highest end of a loaded segment among the first `n` headers. */
  function ImageEnd(phdrs: seq<Phdr>, n: nat): nat
    requires n <= |phdrs|
  {
    if n == 0 then 0 else
    var end := ImageEnd(phdrs, n - 1);
    var ph := phdrs[n - 1];
    if ph.Loads() && end < ph.paddr + ph.memsz then ph.paddr + ph.memsz else end
  }

  lemma {:induction false} ImageEndIsMax(phdrs: seq<Phdr>, n: nat)
    requires n <= |phdrs|
    ensures forall i :: 0 <= i < n && phdrs[i].Loads() ==> phdrs[i].paddr + phdrs[i].memsz <= ImageEnd(phdrs, n)
    ensures (exists i :: 0 <= i < n && phdrs[i].Loads()) ==>
              exists i :: 0 <= i < n && phdrs[i].Loads() && phdrs[i].paddr + phdrs[i].memsz == ImageEnd(phdrs, n)
    ensures !(exists i :: 0 <= i < n && phdrs[i].Loads()) ==> ImageEnd(phdrs, n) == 0
  {
    if n > 0 {
      ImageEndIsMax(phdrs, n - 1);
      if phdrs[n - 1].Loads() && ImageEnd(phdrs, n) != phdrs[n - 1].paddr + phdrs[n - 1].memsz {
        assert exists i :: 0 <= i < n - 1 && phdrs[i].Loads();
      }
    }
  }

  /** A segment that can be loaded: consistent, within the file, and within guest RAM. */
  predicate Fits(image: seq<byte>, size: nat, ph: Phdr) {
    && ph.filesz <= ph.memsz
    && ph.offset + ph.filesz <= |image|
    && ph.paddr + ph.memsz <= size
  }

  lemma SegmentLoadsIff(image: seq<byte>, ram: seq<byte>, ph: Phdr, index: nat)
    ensures LoadSegment(image, ram, ph, index).1.None? <==> (ph.Loads() ==> Fits(image, |ram|, ph))
  {
    hide Splice, Zeros;
  }

  /** Loading stops with no error exactly when every segment to load fits. */
  lemma {:induction false} LoadsIff(image: seq<byte>, phdrs: seq<Phdr>, i: nat, ram: seq<byte>)
    requires i <= |phdrs|
    ensures LoadFrom(image, phdrs, i, ram).1.None? <==>
            forall k :: i <= k < |phdrs| && phdrs[k].Loads() ==> Fits(image, |ram|, phdrs[k])
    decreases |phdrs| - i
  {
    hide LoadSegment, Fits;
    if i < |phdrs| {
      SegmentLoadsIff(image, ram, phdrs[i], i);
      LoadsIff(image, phdrs, i + 1, LoadSegment(image, ram, phdrs[i], i).0);
    }
  }

  /** What is wrong with a segment that cannot be loaded. */
  ghost function FailureOf(image: seq<byte>, size: nat, ph: Phdr, index: nat): LoaderError {
    if ph.filesz > ph.memsz then BadSegmentSize(index)
    else if ph.offset + ph.filesz > |image| then SegmentOutOfFile(index)
    else if ph.paddr + ph.filesz > size then GuestWrite(ph.paddr)
    else GuestWrite(ph.paddr + ph.filesz)
  }

  /** Segment `k` is the first from `i` on that cannot be loaded. */
  ghost predicate FirstToFail(image: seq<byte>, size: nat, phdrs: seq<Phdr>, i: nat, k: nat) {
    && i <= k < |phdrs| && phdrs[k].Loads() && !Fits(image, size, phdrs[k])
    && forall j :: i <= j < k && phdrs[j].Loads() ==> Fits(image, size, phdrs[j])
  }

  /** A failed load reports the first segment that cannot be loaded, and what is wrong with it. */
  lemma {:induction false} FailsWith(image: seq<byte>, phdrs: seq<Phdr>, i: nat, ram: seq<byte>)
    requires i <= |phdrs| && LoadFrom(image, phdrs, i, ram).1.Some?
    ensures exists k: nat :: FirstToFail(image, |ram|, phdrs, i, k)
                             && LoadFrom(image, phdrs, i, ram).1 == Some(FailureOf(image, |ram|, phdrs[k], k))
    decreases |phdrs| - i
  {
    hide LoadSegment, Fits;
    SegmentLoadsIff(image, ram, phdrs[i], i);
    if LoadSegment(image, ram, phdrs[i], i).1.Some? {
      SegmentFailsWith(image, ram, phdrs[i], i);
      assert FirstToFail(image, |ram|, phdrs, i, i);
    } else {
      FailsWith(image, phdrs, i + 1, LoadSegment(image, ram, phdrs[i], i).0);
      var k: nat :| FirstToFail(image, |ram|, phdrs, i + 1, k)
        && LoadFrom(image, phdrs, i, ram).1 == Some(FailureOf(image, |ram|, phdrs[k], k));
      assert FirstToFail(image, |ram|, phdrs, i, k);
    }
  }

  lemma SegmentFailsWith(image: seq<byte>, ram: seq<byte>, ph: Phdr, index: nat)
    requires LoadSegment(image, ram, ph, index).1.Some?
    ensures LoadSegment(image, ram, ph, index).1 == Some(FailureOf(image, |ram|, ph, index))
  {
    hide Splice, Zeros;
  }

  /** The last segment among the first `n` that covers `a`, if any. */
  function LastCovering(phdrs: seq<Phdr>, n: nat, a: nat): (r: Option<nat>)
    requires n <= |phdrs|
    ensures r.Some? ==> r.value < n && phdrs[r.value].Covers(a)
    ensures r.Some? ==> forall i :: r.value < i < n ==> !phdrs[i].Covers(a)
    ensures r.None? ==> forall i :: 0 <= i < n ==> !phdrs[i].Covers(a)
  {
    if n == 0 then None
    else if phdrs[n - 1].Covers(a) then Some(n - 1)
    else LastCovering(phdrs, n - 1, a)
  }

  /** What a segment within the file holds at `a`: the file's byte in its file part, zero in its
      tail. */
  function SegmentByte(image: seq<byte>, ph: Phdr, a: nat): byte
    requires ph.Covers(a)
  {
    var k := a - ph.paddr;
    if k < ph.filesz && ph.offset + k < |image| then image[ph.offset + k] else 0
  }

  lemma SegmentLands(image: seq<byte>, ram: seq<byte>, ph: Phdr, index: nat)
    requires LoadSegment(image, ram, ph, index).1.None? && ph.Loads()
    ensures ph.filesz <= ph.memsz && ph.offset + ph.filesz <= |image| && ph.paddr + ph.memsz <= |ram|
    ensures forall a: nat :: a < |ram| ==>
              LoadSegment(image, ram, ph, index).0[a] == if ph.Covers(a) then SegmentByte(image, ph, a) else ram[a]
  {
    hide Splice;
    var src := image[ph.offset..ph.offset + ph.filesz];
    var ram1 := Write(ram, ph.paddr, src).0;
    SpliceBytes(ram, ph.paddr, src);
    if ph.memsz > ph.filesz {
      SpliceBytes(ram1, ph.paddr + ph.filesz, Zeros(ph.memsz - ph.filesz));
    }
  }

  /** What memory holds at `a` after the segments from `i` on were loaded over `ram`. */
  lemma {:induction false} SegmentsLand(image: seq<byte>, phdrs: seq<Phdr>, i: nat, ram: seq<byte>, a: nat)
    requires i <= |phdrs| && LoadFrom(image, phdrs, i, ram).1.None? && a < |ram|
    ensures forall k :: i <= k < |phdrs| && phdrs[k].Loads() ==>
              phdrs[k].filesz <= phdrs[k].memsz && phdrs[k].offset + phdrs[k].filesz <= |image|
    ensures var last := LastCovering(phdrs, |phdrs|, a);
            LoadFrom(image, phdrs, i, ram).0[a] ==
            if last.Some? && last.value >= i
            then SegmentByte(image, phdrs[last.value], a) else ram[a]
    decreases |phdrs| - i
  {
    hide LoadSegment, SegmentByte;
    if i < |phdrs| {
      var ram1 := LoadSegment(image, ram, phdrs[i], i).0;
      SegmentsLand(image, phdrs, i + 1, ram1, a);
      if phdrs[i].Loads() {
        SegmentLands(image, ram, phdrs[i], i);
      } else {
        SkippedSegment(image, ram, phdrs[i], i);
      }
    }
  }

  lemma SkippedSegment(image: seq<byte>, ram: seq<byte>, ph: Phdr, index: nat)
    requires !ph.Loads()
    ensures LoadSegment(image, ram, ph, index) == (ram, None)
    ensures forall a :: !ph.Covers(a)
  {
  }

  // ---- Finding the entry note -----------------------------------------------------------------

  function Align4(n: nat): (r: nat)
    ensures n <= r < n + 4 && r % 4 == 0
  {
    (n + 3) / 4 * 4
  }

  function StripNul(name: seq<byte>): seq<byte> {
    if name != [] && name[|name| - 1] == 0 then name[..|name| - 1] else name
  }

  /** A note as written: name, descriptor and type. */
  datatype Note = Note(name: seq<byte>, desc: seq<byte>, nType: u32) {
    predicate Fits() {
      |name| < TWO32 && |desc| < TWO32
    }

    /** The brand's 64-bit entry note. */
    predicate IsEntry() {
      nType == TB_NOTE_TYPE_ENTRY64 && StripNul(name) == TB_NOTE_NAME && |desc| >= 8
    }

    function Entry(): u64
      requires IsEntry()
    {
      U64At(desc, 0)
    }
  }

  /** The note at `off` and where the next one starts; none at the end or if it does not fit. */
  function NoteAt(seg: seq<byte>, off: nat): (r: Option<(Note, nat)>)
    ensures r.Some? ==> off < r.value.1 <= |seg|
  {
    if off + 12 > |seg| then None else
    var namesz, descsz := U32At(seg, off), U32At(seg, off + 4);
    var descOff := off + 12 + Align4(namesz);
    var next := descOff + Align4(descsz);
    if next > |seg| then None
    else Some((Note(seg[off + 12..off + 12 + namesz], seg[descOff..descOff + descsz], U32At(seg, off + 8)), next))
  }

  /** The entry of the first matching note from `off` on. */
  function ScanNotes(seg: seq<byte>, off: nat): Option<u64>
    decreases |seg| - off
  {
    var n := NoteAt(seg, off);
    if n.None? then None
    else if n.value.0.IsEntry() then Some(n.value.0.Entry())
    else ScanNotes(seg, n.value.1)
  }

  /** Searches the note segments from index `i` on. */
  function FindFrom(image: seq<byte>, phdrs: seq<Phdr>, i: nat): Result<Option<u64>, LoaderError>
    requires i <= |phdrs|
    decreases |phdrs| - i
  {
    if i == |phdrs| then Ok(None)
    else if phdrs[i].pType != PT_NOTE then FindFrom(image, phdrs, i + 1)
    else if phdrs[i].offset + phdrs[i].filesz > |image| then Err(Truncated)
    else
      var found := ScanNotes(image[phdrs[i].offset..phdrs[i].offset + phdrs[i].filesz], 0);
      if found.Some? then Ok(found) else FindFrom(image, phdrs, i + 1)
  }

  method FindTbEntry(image: seq<byte>, phdrs: seq<Phdr>) returns (r: Result<Option<u64>, LoaderError>)
    ensures r == FindFrom(image, phdrs, 0)
  {
    for i := 0 to |phdrs|
      invariant FindFrom(image, phdrs, i) == FindFrom(image, phdrs, 0)
    {
      var ph := phdrs[i];
      if ph.pType == PT_NOTE {
        if ph.offset + ph.filesz > |image| {
          return Err(Truncated);
        }
        var seg := image[ph.offset..ph.offset + ph.filesz];
        var found := ScanSegment(seg);
        if found.Some? {
          return Ok(found);
        }
      }
    }
    r := Ok(None);
  }

  /** The note walk within one segment. */
  method ScanSegment(seg: seq<byte>) returns (found: Option<u64>)
    ensures found == ScanNotes(seg, 0)
  {
    hide U32At, U64At, Align4, StripNul, NoteAt, ScanNotes;
    var off := 0;
    while off + 12 <= |seg|
      invariant ScanNotes(seg, off) == ScanNotes(seg, 0)
      decreases |seg| - off
    {
      var namesz, descsz, ntype := U32At(seg, off), U32At(seg, off + 4), U32At(seg, off + 8);
      var nameOff := off + 12;
      var descOff := nameOff + Align4(namesz);
      var next := descOff + Align4(descsz);
      ScanByCases(seg, off);
      if next > |seg| || next <= off {
        break;
      }
      var name := seg[nameOff..nameOff + namesz];
      if ntype == TB_NOTE_TYPE_ENTRY64 && StripNul(name) == TB_NOTE_NAME && descsz >= 8 {
        return Some(U64At(seg[descOff..descOff + 8], 0));
      }
      off := next;
    }
    NothingLeft(seg, off);
    found := None;
  }

  /** One turn of the walk. */
  lemma ScanByCases(seg: seq<byte>, off: nat)
    requires off + 12 <= |seg|
    ensures var namesz, descsz := U32At(seg, off), U32At(seg, off + 4);
            var descOff := off + 12 + Align4(namesz);
            var next := descOff + Align4(descsz);
            if next > |seg| then ScanNotes(seg, off) == None
            else if U32At(seg, off + 8) == TB_NOTE_TYPE_ENTRY64 && descsz >= 8
                    && StripNul(seg[off + 12..off + 12 + namesz]) == TB_NOTE_NAME
            then ScanNotes(seg, off) == Some(U64At(seg[descOff..descOff + 8], 0))
            else ScanNotes(seg, off) == ScanNotes(seg, next)
  {
    hide U32At, U64At, Align4, StripNul;
    var namesz, descsz := U32At(seg, off), U32At(seg, off + 4);
    var descOff := off + 12 + Align4(namesz);
    if descOff + Align4(descsz) <= |seg| && descsz >= 8 {
      EntryIsDescriptor(seg, descOff, descsz);
    }
  }

  lemma NothingLeft(seg: seq<byte>, off: nat)
    ensures off + 12 > |seg| ==> ScanNotes(seg, off).None?
  {
  }

  lemma EntryIsDescriptor(seg: seq<byte>, descOff: nat, descsz: nat)
    requires descsz >= 8 && descOff + descsz <= |seg|
    ensures U64At(seg[descOff..descOff + 8], 0) == U64At(seg[descOff..descOff + descsz], 0)
  {
    hide FromLe;
    assert seg[descOff..descOff + descsz][0..8] == seg[descOff..descOff + 8][0..8];
  }

  // ---- Notes as the System V gABI frames them ----------------------------------------------------

  function Padded(s: seq<byte>): (r: seq<byte>)
    ensures |r| == Align4(|s|)
  {
    s + Zeros(Align4(|s|) - |s|)
  }

  function NoteBytes(n: Note): seq<byte> {
    Le(|n.name|, 4) + Le(|n.desc|, 4) + Le(n.nType, 4) + Padded(n.name) + Padded(n.desc)
  }

  function SegmentBytes(notes: seq<Note>): seq<byte> {
    if notes == [] then [] else NoteBytes(notes[0]) + SegmentBytes(notes[1..])
  }

  function FirstEntry(notes: seq<Note>): Option<u64> {
    if notes == [] then None
    else if notes[0].IsEntry() then Some(notes[0].Entry())
    else FirstEntry(notes[1..])
  }

  ghost predicate AllFit(notes: seq<Note>) {
    forall i :: 0 <= i < |notes| ==> notes[i].Fits()
  }

  lemma NoteFields(n: Note)
    requires n.Fits()
    ensures var b := NoteBytes(n);
            && |b| == 12 + Align4(|n.name|) + Align4(|n.desc|)
            && U32At(b, 0) == |n.name| && U32At(b, 4) == |n.desc| && U32At(b, 8) == n.nType
            && b[12..12 + |n.name|] == n.name
            && b[12 + Align4(|n.name|)..12 + Align4(|n.name|) + |n.desc|] == n.desc
  {
    hide Le, FromLe, Align4;
    var b := NoteBytes(n);
    WordBounds();
    FromLeOfLe(|n.name|, 4);
    FromLeOfLe(|n.desc|, 4);
    FromLeOfLe(n.nType, 4);
    assert b[0..4] == Le(|n.name|, 4) && b[4..8] == Le(|n.desc|, 4) && b[8..12] == Le(n.nType, 4);
  }

  /** A note reads back wherever it stands. */
  lemma NoteReads(seg: seq<byte>, off: nat, n: Note)
    requires n.Fits() && off + |NoteBytes(n)| <= |seg| && seg[off..off + |NoteBytes(n)|] == NoteBytes(n)
    ensures NoteAt(seg, off) == Some((n, off + |NoteBytes(n)|))
  {
    hide NoteBytes, FromLe, Align4;
    NoteFields(n);
    var b := NoteBytes(n);
    var end := off + |b|;
    var d := 12 + Align4(|n.name|);
    SubSlice(seg, off, end, 0, 4);
    SubSlice(seg, off, end, 4, 8);
    SubSlice(seg, off, end, 8, 12);
    SubSlice(seg, off, end, 12, 12 + |n.name|);
    SubSlice(seg, off, end, d, d + |n.desc|);
  }

  /** An entry note is one of the brand's type, named "YUVA" with or without a NUL, that has room for an
      address; the entry is the number its descriptor starts with. */
  lemma IsEntryIff(n: Note)
    ensures n.IsEntry() <==>
            n.nType == 0x5955_0001 && |n.desc| >= 8
            && (n.name == [0x59, 0x55, 0x56, 0x41] || n.name == [0x59, 0x55, 0x56, 0x41, 0])
    ensures n.IsEntry() ==> n.desc[..8] == Le(n.Entry(), 8)
  {
    hide Le, FromLe;
    if n.name != [] {
      assert n.name == n.name[..|n.name| - 1] + [n.name[|n.name| - 1]];
    }
    assert TB_NOTE_NAME + [0] == [0x59, 0x55, 0x56, 0x41, 0];
    if |n.desc| >= 8 {
      NumberWritesBack(n.desc, 0, 8);
    }
  }

  /** The notes the walk passes, on any bytes. */
  function NotesFrom(seg: seq<byte>, off: nat): seq<Note>
    decreases |seg| - off
  {
    var n := NoteAt(seg, off);
    if n.None? then [] else [n.value.0] + NotesFrom(seg, n.value.1)
  }

  /** On any bytes, the scan gives the entry of the first entry note the walk passes. */
  lemma {:induction false} ScanIsFirst(seg: seq<byte>, off: nat)
    ensures ScanNotes(seg, off) == FirstEntry(NotesFrom(seg, off))
    decreases |seg| - off
  {
    hide NoteAt;
    var n := NoteAt(seg, off);
    if n.Some? {
      ScanIsFirst(seg, n.value.1);
      assert NotesFrom(seg, off)[1..] == NotesFrom(seg, n.value.1);
    }
  }

  /** Scanning a segment of framed notes finds the first entry note. */
  lemma {:induction false} ScanFindsFirst(seg: seq<byte>, off: nat, notes: seq<Note>)
    requires AllFit(notes) && off <= |seg| && seg[off..] == SegmentBytes(notes)
    ensures ScanNotes(seg, off) == FirstEntry(notes)
    decreases |notes|
  {
    hide NoteBytes, NoteAt;
    if notes == [] {
      NothingAtEnd(seg, off);
    } else {
      var b := NoteBytes(notes[0]);
      assert seg[off..off + |b|] == seg[off..][..|b|] == b;
      NoteReads(seg, off, notes[0]);
      assert seg[off + |b|..] == seg[off..][|b|..] == SegmentBytes(notes[1..]);
      ScanFindsFirst(seg, off + |b|, notes[1..]);
    }
  }

  lemma NothingAtEnd(seg: seq<byte>, off: nat)
    requires off <= |seg| && seg[off..] == []
    ensures NoteAt(seg, off).None?
  {
  }

  /** All notes of the note segments from index `i` on, when `notes[k]` are those of header `k`. */
  ghost function AllNotes(phdrs: seq<Phdr>, notes: seq<seq<Note>>, i: nat): seq<Note>
    requires i <= |phdrs| == |notes|
    decreases |phdrs| - i
  {
    if i == |phdrs| then []
    else (if phdrs[i].pType == PT_NOTE then notes[i] else []) + AllNotes(phdrs, notes, i + 1)
  }

  /** The note segments of the file are framed notes. */
  ghost predicate Framed(image: seq<byte>, phdrs: seq<Phdr>, notes: seq<seq<Note>>) {
    && |notes| == |phdrs|
    && forall i :: 0 <= i < |phdrs| && phdrs[i].pType == PT_NOTE ==>
         && phdrs[i].offset + phdrs[i].filesz <= |image|
         && AllFit(notes[i])
         && image[phdrs[i].offset..phdrs[i].offset + phdrs[i].filesz] == SegmentBytes(notes[i])
  }

  lemma {:induction false} FirstOfConcat(a: seq<Note>, b: seq<Note>)
    ensures FirstEntry(a + b) == if FirstEntry(a).Some? then FirstEntry(a) else FirstEntry(b)
  {
    if a == [] {
      assert a + b == b;
    } else {
      assert (a + b)[1..] == a[1..] + b;
      FirstOfConcat(a[1..], b);
    }
  }

  /** Header `i` is a note segment within the file. */
  predicate HoldsNotes(image: seq<byte>, ph: Phdr) {
    ph.pType == 4 && ph.offset + ph.filesz <= |image|
  }

  /** What the walk over a note segment finds. */
  function EntryIn(image: seq<byte>, ph: Phdr): Option<u64>
    requires HoldsNotes(image, ph)
  {
    FirstEntry(NotesFrom(image[ph.offset..ph.offset + ph.filesz], 0))
  }

  /** The note segments up to index `i` lie in the file, and `i` is the first with an entry note. */
  ghost predicate FirstFoundAt(image: seq<byte>, phdrs: seq<Phdr>, from: nat, i: nat) {
    && from <= i < |phdrs| && HoldsNotes(image, phdrs[i]) && EntryIn(image, phdrs[i]).Some?
    && forall j :: from <= j < i && phdrs[j].pType == PT_NOTE ==>
         HoldsNotes(image, phdrs[j]) && EntryIn(image, phdrs[j]).None?
  }

  /** Whatever the note segments hold, the search finds an entry exactly when some note segment has
      an entry note and no note segment before it has one or leaves the file; it finds the first. */
  lemma FindsIff(image: seq<byte>, phdrs: seq<Phdr>)
    ensures FindFrom(image, phdrs, 0).Ok? && FindFrom(image, phdrs, 0).value.Some? <==>
            exists i: nat :: FirstFoundAt(image, phdrs, 0, i)
    ensures forall i: nat :: FirstFoundAt(image, phdrs, 0, i) ==>
              HoldsNotes(image, phdrs[i]) && FindFrom(image, phdrs, 0) == Ok(EntryIn(image, phdrs[i]))
  {
    hide EntryIn, HoldsNotes, FindFrom;
    if FindFrom(image, phdrs, 0).Ok? && FindFrom(image, phdrs, 0).value.Some? {
      FoundSomewhere(image, phdrs, 0);
    }
    forall i: nat | FirstFoundAt(image, phdrs, 0, i)
      ensures HoldsNotes(image, phdrs[i]) && FindFrom(image, phdrs, 0) == Ok(EntryIn(image, phdrs[i]))
    {
      FoundAt(image, phdrs, 0, i);
    }
  }

  lemma {:induction false} FoundAt(image: seq<byte>, phdrs: seq<Phdr>, from: nat, i: nat)
    requires FirstFoundAt(image, phdrs, from, i)
    ensures FindFrom(image, phdrs, from) == Ok(EntryIn(image, phdrs[i]))
    decreases i - from
  {
    hide EntryIn, ScanNotes;
    if HoldsNotes(image, phdrs[from]) {
      SegmentScan(image, phdrs[from]);
    }
    if from < i {
      FoundAt(image, phdrs, from + 1, i);
    }
  }

  lemma {:induction false} FoundSomewhere(image: seq<byte>, phdrs: seq<Phdr>, from: nat)
    requires from <= |phdrs| && FindFrom(image, phdrs, from).Ok? && FindFrom(image, phdrs, from).value.Some?
    ensures exists i: nat :: FirstFoundAt(image, phdrs, from, i)
    decreases |phdrs| - from
  {
    hide EntryIn, ScanNotes;
    if HoldsNotes(image, phdrs[from]) {
      SegmentScan(image, phdrs[from]);
    }
    if HoldsNotes(image, phdrs[from]) && EntryIn(image, phdrs[from]).Some? {
      assert FirstFoundAt(image, phdrs, from, from);
    } else {
      FoundSomewhere(image, phdrs, from + 1);
      var i: nat :| FirstFoundAt(image, phdrs, from + 1, i);
      assert FirstFoundAt(image, phdrs, from, i);
    }
  }

  lemma SegmentScan(image: seq<byte>, ph: Phdr)
    requires HoldsNotes(image, ph)
    ensures ScanNotes(image[ph.offset..ph.offset + ph.filesz], 0) == EntryIn(image, ph)
  {
    ScanIsFirst(image[ph.offset..ph.offset + ph.filesz], 0);
  }

  /** Header `i` is the first note segment that leaves the file, and none before it has an entry. */
  ghost predicate FirstBrokenAt(image: seq<byte>, phdrs: seq<Phdr>, from: nat, i: nat) {
    && from <= i < |phdrs| && phdrs[i].pType == 4 && !HoldsNotes(image, phdrs[i])
    && forall j :: from <= j < i && phdrs[j].pType == 4 ==>
         HoldsNotes(image, phdrs[j]) && EntryIn(image, phdrs[j]).None?
  }

  /** The search fails, and then as truncated, exactly at such a segment. */
  lemma {:induction false} SearchFailsIff(image: seq<byte>, phdrs: seq<Phdr>, from: nat)
    requires from <= |phdrs|
    ensures FindFrom(image, phdrs, from).Err? <==> exists i: nat :: FirstBrokenAt(image, phdrs, from, i)
    ensures FindFrom(image, phdrs, from).Err? ==> FindFrom(image, phdrs, from).error == Truncated
    decreases |phdrs| - from
  {
    hide EntryIn, ScanNotes;
    if from < |phdrs| {
      if HoldsNotes(image, phdrs[from]) {
        SegmentScan(image, phdrs[from]);
      }
      SearchFailsIff(image, phdrs, from + 1);
      if phdrs[from].pType == 4 && !HoldsNotes(image, phdrs[from]) {
        assert FirstBrokenAt(image, phdrs, from, from);
      } else if !(phdrs[from].pType == 4 && EntryIn(image, phdrs[from]).Some?) {
        var next := from + 1;
        if i: nat :| FirstBrokenAt(image, phdrs, next, i) {
          assert FirstBrokenAt(image, phdrs, from, i);
        }
        if i: nat :| FirstBrokenAt(image, phdrs, from, i) {
          assert FirstBrokenAt(image, phdrs, next, i);
        }
      }
    }
  }

  /** Over any number of note segments, the search gives the entry of the first matching note of
      all, or none if there is none. */
  lemma {:induction false} FindsFirstNote(image: seq<byte>, phdrs: seq<Phdr>, notes: seq<seq<Note>>, i: nat)
    requires Framed(image, phdrs, notes) && i <= |phdrs|
    ensures FindFrom(image, phdrs, i) == Ok(FirstEntry(AllNotes(phdrs, notes, i)))
    decreases |phdrs| - i
  {
    hide ScanNotes;
    if i < |phdrs| {
      FindsFirstNote(image, phdrs, notes, i + 1);
      var here := if phdrs[i].pType == PT_NOTE then notes[i] else [];
      FirstOfConcat(here, AllNotes(phdrs, notes, i + 1));
      if phdrs[i].pType == PT_NOTE {
        var seg := image[phdrs[i].offset..phdrs[i].offset + phdrs[i].filesz];
        assert seg[0..] == seg;
        ScanFindsFirst(seg, 0, notes[i]);
      }
    }
  }

  // ---- The whole load -----------------------------------------------------------------------------

  datatype LoadedKernel = LoadedKernel(entry: u64, imageEnd: nat)

  /** Guest RAM after the call, and its result. */
  function Loaded(image: seq<byte>, ram: seq<byte>): (seq<byte>, Result<LoadedKernel, LoaderError>) {
    var phdrs := Phdrs(image);
    if phdrs.Err? then (ram, Err(phdrs.error)) else
    var (ram1, e) := LoadFrom(image, phdrs.value, 0, ram);
    if e.Some? then (ram1, Err(e.value)) else
    if !AnyLoads(phdrs.value, |phdrs.value|) then (ram1, Err(NoLoadSegments)) else
    var found := FindFrom(image, phdrs.value, 0);
    if found.Err? then (ram1, Err(found.error)) else
    if found.value.None? then (ram1, Err(MissingTbNote)) else
    (ram1, Ok(LoadedKernel(found.value.value, ImageEnd(phdrs.value, |phdrs.value|))))
  }

  class GuestRam {
    var bytes: seq<byte>

    constructor (bytes: seq<byte>)
      ensures this.bytes == bytes
    {
      this.bytes := bytes;
    }

    /** `write_slice`. */
    method WriteSlice(b: seq<byte>, addr: nat) returns (ok: bool)
      modifies this
      ensures (bytes, ok) == Write(old(bytes), addr, b)
    {
      var (after, fits) := Write(bytes, addr, b);
      bytes, ok := after, fits;
    }
  }

  method LoadKernel(image: seq<byte>, mem: GuestRam) returns (r: Result<LoadedKernel, LoaderError>)
    modifies mem
    ensures (mem.bytes, r) == Loaded(image, old(mem.bytes))
  {
    hide Phdrs, Write, FindFrom;
    var parsed := ParsePhdrs(image);
    if parsed.Err? {
      return Err(parsed.error);
    }
    var phdrs := parsed.value;
    var loadedAny, imageEnd: nat := false, 0;
    for i := 0 to |phdrs|
      invariant LoadFrom(image, phdrs, i, mem.bytes) == LoadFrom(image, phdrs, 0, old(mem.bytes))
      invariant loadedAny == AnyLoads(phdrs, i)
      invariant imageEnd == ImageEnd(phdrs, i)
    {
      var ph := phdrs[i];
      if ph.pType != PT_LOAD || ph.memsz == 0 {
        continue;
      }
      if ph.filesz > ph.memsz {
        return Err(BadSegmentSize(i));
      }
      if ph.offset + ph.filesz > |image| {
        return Err(SegmentOutOfFile(i));
      }
      var ok := mem.WriteSlice(image[ph.offset..ph.offset + ph.filesz], ph.paddr);
      if !ok {
        return Err(GuestWrite(ph.paddr));
      }
      var bss := ph.memsz - ph.filesz;
      if bss > 0 {
        var dst := ph.paddr + ph.filesz;
        ok := mem.WriteSlice(Zeros(bss), dst);
        if !ok {
          return Err(GuestWrite(dst));
        }
      }
      loadedAny := true;
      imageEnd := if imageEnd < ph.paddr + ph.memsz then ph.paddr + ph.memsz else imageEnd;
    }
    if !loadedAny {
      return Err(NoLoadSegments);
    }
    var found := FindTbEntry(image, phdrs);
    if found.Err? {
      return Err(found.error);
    }
    if found.value.None? {
      return Err(MissingTbNote);
    }
    r := Ok(LoadedKernel(found.value.value, imageEnd));
  }

  /** What a successful load leaves: every address holds what the last segment over it says, the
      rest of RAM is as it was, and the image ends where its furthest segment ends. */
  lemma LoadedImage(image: seq<byte>, ram: seq<byte>, phdrs: seq<Phdr>)
    requires Loaded(image, ram).1.Ok? && Phdrs(image) == Ok(phdrs)
    ensures forall i :: 0 <= i < |phdrs| && phdrs[i].Loads() ==> Fits(image, |ram|, phdrs[i])
    ensures var after := Loaded(image, ram).0;
            && |after| == |ram|
            && forall a: nat :: a < |ram| ==>
                 match LastCovering(phdrs, |phdrs|, a)
                 case Some(i) => after[a] == SegmentByte(image, phdrs[i], a)
                 case None => after[a] == ram[a]
    ensures var end := Loaded(image, ram).1.value.imageEnd;
            && (forall i :: 0 <= i < |phdrs| && phdrs[i].Loads() ==> phdrs[i].paddr + phdrs[i].memsz <= end)
            && (exists i :: 0 <= i < |phdrs| && phdrs[i].Loads() && phdrs[i].paddr + phdrs[i].memsz == end)
  {
    hide Phdrs, LoadSegment, FindFrom, LastCovering;
    LoadsIff(image, phdrs, 0, ram);
    ImageEndIsMax(phdrs, |phdrs|);
    forall a: nat | a < |ram|
      ensures match LastCovering(phdrs, |phdrs|, a)
              case Some(i) => Loaded(image, ram).0[a] == SegmentByte(image, phdrs[i], a)
              case None => Loaded(image, ram).0[a] == ram[a]
    {
      SegmentsLand(image, phdrs, 0, ram, a);
    }
  }

  /** A load succeeds exactly when there is something to load, all of it fits, and the note
      segments yield an entry; it then enters at the first entry note of the first such segment. */
  lemma LoadSucceedsIff(image: seq<byte>, ram: seq<byte>, phdrs: seq<Phdr>)
    requires Phdrs(image) == Ok(phdrs)
    ensures Loaded(image, ram).1.Ok? <==>
            && (exists i :: 0 <= i < |phdrs| && phdrs[i].pType == 1 && phdrs[i].memsz > 0)
            && (forall i :: 0 <= i < |phdrs| && phdrs[i].pType == 1 && phdrs[i].memsz > 0 ==> Fits(image, |ram|, phdrs[i]))
            && (exists i: nat :: FirstFoundAt(image, phdrs, 0, i))
    ensures Loaded(image, ram).1.Ok? ==>
              forall i: nat :: FirstFoundAt(image, phdrs, 0, i) ==>
                HoldsNotes(image, phdrs[i]) && EntryIn(image, phdrs[i]) == Some(Loaded(image, ram).1.value.entry)
  {
    hide Phdrs, LoadFrom, FindFrom, Fits, EntryIn, HoldsNotes, FirstFoundAt, ImageEnd;
    LoadsIff(image, phdrs, 0, ram);
    FindsIff(image, phdrs);
  }

  /** And why it fails when the headers parse: the first segment that cannot be loaded, else nothing to
      load, else a broken note segment before any entry, else no entry. */
  lemma LoadFailsAs(image: seq<byte>, ram: seq<byte>, phdrs: seq<Phdr>)
    requires Phdrs(image) == Ok(phdrs) && Loaded(image, ram).1.Err?
    ensures var e := Loaded(image, ram).1.error;
            if exists i :: 0 <= i < |phdrs| && phdrs[i].Loads() && !Fits(image, |ram|, phdrs[i]) then
              exists k: nat :: FirstToFail(image, |ram|, phdrs, 0, k) && e == FailureOf(image, |ram|, phdrs[k], k)
            else if forall i :: 0 <= i < |phdrs| ==> !phdrs[i].Loads() then e == NoLoadSegments
            else if exists i: nat :: FirstBrokenAt(image, phdrs, 0, i) then e == Truncated
            else e == MissingTbNote
  {
    hide Phdrs, LoadFrom, FindFrom, Fits, EntryIn, HoldsNotes, FirstBrokenAt, ImageEnd, FailureOf, FirstToFail;
    LoadsIff(image, phdrs, 0, ram);
    SearchFailsIff(image, phdrs, 0);
    if LoadFrom(image, phdrs, 0, ram).1.Some? {
      FailsWith(image, phdrs, 0, ram);
    }
  }

  /** When the note segments are framed notes, that is the first entry note of all of them. */
  lemma FramedLoadEntersAtFirst(image: seq<byte>, ram: seq<byte>, phdrs: seq<Phdr>, notes: seq<seq<Note>>)
    requires Phdrs(image) == Ok(phdrs) && Framed(image, phdrs, notes)
    ensures (exists i: nat :: FirstFoundAt(image, phdrs, 0, i)) <==> FirstEntry(AllNotes(phdrs, notes, 0)).Some?
    ensures Loaded(image, ram).1.Ok? ==> FirstEntry(AllNotes(phdrs, notes, 0)) == Some(Loaded(image, ram).1.value.entry)
  {
    hide Phdrs, LoadFrom, FindFrom, Fits, FirstEntry, AllNotes, Framed, ImageEnd, FirstFoundAt;
    FindsIff(image, phdrs);
    FindsFirstNote(image, phdrs, notes, 0);
  }
}
