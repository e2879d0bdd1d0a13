/** The attestation statement codec (crates/tb-encode/src/attest.rs): a bijection between
    in-cap statements and the byte strings its decoder accepts. */
module Attest {
  import opened Words
  import opened Layout

  const DIGEST_LEN := 32
  const BUILDER_ID_LEN := 16
  const MAX_MATERIALS := 8
  const MAX_LEDGER := 16
  const ATTEST_MAGIC: u16 := 0x5959
  const ATTEST_VERSION: byte := 1
  const PREFIX_LEN := 86
  const ENTRY_LEN := 9

  type Digest = s: seq<byte> | |s| == DIGEST_LEN witness Zeros(DIGEST_LEN)
  type BuilderId = s: seq<byte> | |s| == BUILDER_ID_LEN witness Zeros(BUILDER_ID_LEN)

  datatype LedgerEntry = LedgerEntry(depTok: u64, status: byte)

  datatype Statement = Statement(subject: Digest, builderId: BuilderId, buildType: byte, toolchain: Digest,
                                 materials: seq<Digest>, ledger: seq<LedgerEntry>)
  {
    predicate InCaps() {
      |materials| <= MAX_MATERIALS && |ledger| <= MAX_LEDGER
    }
  }

  // ---- The byte layout ---------------------------------------------------------------

  function PrefixFields(st: Statement): seq<seq<byte>>
    requires st.InCaps()
  {
    [Le(ATTEST_MAGIC, 2), [ATTEST_VERSION], [st.buildType], st.subject, st.toolchain, st.builderId,
     [|st.materials|], [|st.ledger|]]
  }

  function EntryBytes(e: LedgerEntry): (s: seq<byte>)
    ensures |s| == ENTRY_LEN
  {
    Le(e.depTok, 8) + [e.status]
  }

  function EntryFields(ledger: seq<LedgerEntry>): seq<seq<byte>> {
    seq(|ledger|, i requires 0 <= i < |ledger| => EntryBytes(ledger[i]))
  }

  function Fields(st: Statement): seq<seq<byte>>
    requires st.InCaps()
  {
    PrefixFields(st) + (st.materials + EntryFields(st.ledger))
  }

  function StatementBytes(st: Statement): seq<byte>
    requires st.InCaps()
  {
    Concat(Fields(st))
  }

  function CanonLen(st: Statement): nat {
    PREFIX_LEN + |st.materials| * DIGEST_LEN + |st.ledger| * ENTRY_LEN
  }

  lemma PrefixOffsets(st: Statement)
    requires st.InCaps()
    ensures var f := PrefixFields(st);
            && Offset(f, 0) == 0 && Offset(f, 1) == 2 && Offset(f, 2) == 3 && Offset(f, 3) == 4
            && Offset(f, 4) == 36 && Offset(f, 5) == 68 && Offset(f, 6) == 84 && Offset(f, 7) == 85
            && Offset(f, 8) == PREFIX_LEN
  {
    hide Le, Offset;
    var f := PrefixFields(st);
    OffsetStep(f, 0);
    OffsetStep(f, 1);
    OffsetStep(f, 2);
    OffsetStep(f, 3);
    OffsetStep(f, 4);
    OffsetStep(f, 5);
    OffsetStep(f, 6);
    OffsetStep(f, 7);
  }

  lemma FieldOffsets(st: Statement)
    requires st.InCaps()
    ensures var f, nm, nl := Fields(st), |st.materials|, |st.ledger|;
            && |f| == 8 + nm + nl
            && (forall i :: 0 <= i <= 8 ==> Offset(f, i) == Offset(PrefixFields(st), i))
            && (forall m :: 0 <= m <= nm ==> Offset(f, 8 + m) == PREFIX_LEN + m * DIGEST_LEN)
            && (forall l :: 0 <= l <= nl ==> Offset(f, 8 + nm + l) == PREFIX_LEN + nm * DIGEST_LEN + l * ENTRY_LEN)
  {
    hide Offset, EntryBytes, PrefixFields;
    var p, ms, es := PrefixFields(st), st.materials, EntryFields(st.ledger);
    PrefixOffsets(st);
    PrefixCount(st);
    forall i | 0 <= i <= 8
      ensures Offset(Fields(st), i) == Offset(p, i)
    {
      OffsetPrefix(p, ms + es, i);
    }
    forall m | 0 <= m <= |ms|
      ensures Offset(Fields(st), 8 + m) == PREFIX_LEN + m * DIGEST_LEN
    {
      OffsetAppend(p, ms + es, m);
      OffsetPrefix(ms, es, m);
      OffsetUniform(ms, DIGEST_LEN, m);
    }
    forall l | 0 <= l <= |es|
      ensures Offset(Fields(st), 8 + |ms| + l) == PREFIX_LEN + |ms| * DIGEST_LEN + l * ENTRY_LEN
    {
      OffsetAppend(p, ms + es, |ms| + l);
      OffsetAppend(ms, es, l);
      OffsetUniform(ms, DIGEST_LEN, |ms|);
      OffsetUniform(es, ENTRY_LEN, l);
    }
  }

  lemma PrefixCount(st: Statement)
    requires st.InCaps()
    ensures |PrefixFields(st)| == 8
  {
  }

  // ---- Decoding -------------------------------------------------------------------------

  /** The decoded record: fixed-capacity lists, zero beyond their counts. */
  datatype Decoded = Decoded(subject: Digest, builderId: BuilderId, buildType: byte, toolchain: Digest,
                             materials: seq<Digest>, nMaterials: nat, ledger: seq<LedgerEntry>, nLedger: nat)

  function Pad<T>(s: seq<T>, n: nat, fill: T): seq<T> {
    s + seq(if |s| < n then n - |s| else 0, _ => fill)
  }

  function NoDigest(): Digest {
    Zeros(DIGEST_LEN)
  }

  /** What decoding a statement's bytes should give. */
  function AsDecoded(st: Statement): Decoded {
    Decoded(st.subject, st.builderId, st.buildType, st.toolchain,
            Pad(st.materials, MAX_MATERIALS, NoDigest()), |st.materials|,
            Pad(st.ledger, MAX_LEDGER, LedgerEntry(0, 0)), |st.ledger|)
  }

  function MaterialAt(buf: seq<byte>, m: nat): Digest
    requires PREFIX_LEN + (m + 1) * DIGEST_LEN <= |buf|
  {
    buf[PREFIX_LEN + m * DIGEST_LEN..PREFIX_LEN + m * DIGEST_LEN + DIGEST_LEN]
  }

  function EntryAt(buf: seq<byte>, off: nat): LedgerEntry
    requires off + ENTRY_LEN <= |buf|
  {
    LedgerEntry(U64At(buf, off), buf[off + 8])
  }

  /** The statement a well-framed buffer spells. */
  function Spelled(buf: seq<byte>, nm: nat, nl: nat): Statement
    requires |buf| == PREFIX_LEN + nm * DIGEST_LEN + nl * ENTRY_LEN
  {
    Statement(buf[4..36], buf[68..84], buf[3], buf[36..68],
              seq(nm, m requires 0 <= m < nm => MaterialAt(buf, m)),
              seq(nl, l requires 0 <= l < nl => EntryAt(buf, PREFIX_LEN + nm * DIGEST_LEN + l * ENTRY_LEN)))
  }

  function Decode(buf: seq<byte>): Option<Decoded> {
    if |buf| < PREFIX_LEN then None
    else if NumberAt(buf, 0, 2) != ATTEST_MAGIC || buf[2] != ATTEST_VERSION then None
    else
      var nm, nl := buf[84], buf[85];
      if nm > MAX_MATERIALS || nl > MAX_LEDGER then None
      else if |buf| != PREFIX_LEN + nm * DIGEST_LEN + nl * ENTRY_LEN then None
      else Some(AsDecoded(Spelled(buf, nm, nl)))
  }

  // ---- The bijection ---------------------------------------------------------------------

  lemma PrefixReads(st: Statement)
    requires st.InCaps()
    ensures var s := StatementBytes(st);
            && |s| == CanonLen(st)
            && NumberAt(s, 0, 2) == ATTEST_MAGIC && s[2] == ATTEST_VERSION && s[3] == st.buildType
            && s[4..36] == st.subject && s[36..68] == st.toolchain && s[68..84] == st.builderId
            && s[84] == |st.materials| && s[85] == |st.ledger|
  {
    hide Concat, Offset, Le, FromLe, NumberAt, EntryFields, PrefixFields;
    var f := Fields(st);
    FieldOffsets(st);
    PrefixOffsets(st);
    ConcatLength(f);
    WordBounds();
    PrefixIs(st);
    NumberFieldAt(f, 0, ATTEST_MAGIC, 2);
    ByteFieldAt(f, 1, ATTEST_VERSION);
    ByteFieldAt(f, 2, st.buildType);
    FieldAt(f, 3);
    FieldAt(f, 4);
    FieldAt(f, 5);
    ByteFieldAt(f, 6, |st.materials|);
    ByteFieldAt(f, 7, |st.ledger|);
  }

  /** A statement byte for byte: magic, version 1, build type, subject, toolchain, builder, the two counts,
      the materials and the ledger entries. */
  lemma StatementLayout(st: Statement)
    requires |st.materials| <= 8 && |st.ledger| <= 16
    ensures StatementBytes(st) ==
            ([0x59, 0x59] + [1] + [st.buildType] + st.subject)
            + (st.toolchain + st.builderId + [|st.materials|] + [|st.ledger|])
            + (Concat(st.materials) + Concat(EntryFields(st.ledger)))
    ensures forall l :: 0 <= l < |st.ledger| ==>
              EntryFields(st.ledger)[l] == Le(st.ledger[l].depTok, 8) + [st.ledger[l].status]
  {
    hide Le, Concat;
    var p := PrefixFields(st);
    ConcatInParts(p, st.materials + EntryFields(st.ledger));
    ConcatInParts(st.materials, EntryFields(st.ledger));
    SplitFields(p, 4);
    FourFields(p[..4]);
    FourFields(p[4..]);
    LeBytes(0x5959);
  }

  /** Which buffers decode: by magic, version, counts and exact length; the fields are then read from their
      places. */
  lemma DecodeIff(buf: seq<byte>)
    ensures Decode(buf).Some? <==>
            && |buf| >= 86 && buf[0] == 0x59 && buf[1] == 0x59 && buf[2] == 1 && buf[84] <= 8 && buf[85] <= 16
            && |buf| == 86 + 32 * (buf[84] as nat) + 9 * (buf[85] as nat)
    ensures Decode(buf).Some? ==>
              var d := Decode(buf).value;
              && d.buildType == buf[3] && d.subject == buf[4..36] && d.toolchain == buf[36..68] && d.builderId == buf[68..84]
              && d.nMaterials == buf[84] && d.nLedger == buf[85]
              && (forall m :: 0 <= m < d.nMaterials ==> d.materials[m] == buf[86 + m * 32..86 + m * 32 + 32])
              && (forall l :: 0 <= l < d.nLedger ==>
                    var off := 86 + d.nMaterials * 32 + l * 9;
                    buf[off..off + 8] == Le(d.ledger[l].depTok, 8) && d.ledger[l].status == buf[off + 8])
  {
    hide Le, FromLe;
    if |buf| >= 86 {
      MagicNumber(buf);
    }
    if Decode(buf).Some? {
      var d := Decode(buf).value;
      forall l | 0 <= l < d.nLedger
        ensures var off := 86 + d.nMaterials * 32 + l * 9;
                buf[off..off + 8] == Le(d.ledger[l].depTok, 8) && d.ledger[l].status == buf[off + 8]
      {
        NumberWritesBack(buf, 86 + d.nMaterials * 32 + l * 9, 8);
      }
    }
  }

  /** The lists of a decoded statement are of fixed length, and zero beyond their counts. */
  lemma RestIsZero(buf: seq<byte>)
    requires Decode(buf).Some?
    ensures var d := Decode(buf).value;
            && |d.materials| == 8 && |d.ledger| == 16
            && (forall m, k :: d.nMaterials <= m < 8 && 0 <= k < 32 ==> |d.materials[m]| == 32 && d.materials[m][k] == 0)
            && (forall l :: d.nLedger <= l < 16 ==> d.ledger[l] == LedgerEntry(0, 0))
  {
    hide Le, FromLe;
  }

  lemma MagicNumber(buf: seq<byte>)
    requires |buf| >= 86
    ensures NumberAt(buf, 0, 2) == 0x5959 <==> buf[0] == 0x59 && buf[1] == 0x59
  {
    hide Le, FromLe;
    LeBytes(0x5959);
    NumberWritesBack(buf, 0, 2);
    WordBounds();
    FromLeOfLe(0x5959, 2);
    assert buf[0..2] == [buf[0], buf[1]];
    assert [0x59, 0x59] == [buf[0], buf[1]] <==> buf[0] == 0x59 && buf[1] == 0x59 by {
      assert [buf[0], buf[1]][0] == buf[0] && [buf[0], buf[1]][1] == buf[1];
    }
  }

  lemma PrefixIs(st: Statement)
    requires st.InCaps()
    ensures var f := Fields(st);
            && |f| >= 8 && f[0] == Le(ATTEST_MAGIC, 2) && f[1] == [ATTEST_VERSION] && f[2] == [st.buildType]
            && f[3] == st.subject && f[4] == st.toolchain && f[5] == st.builderId
            && f[6] == [|st.materials|] && f[7] == [|st.ledger|]
  {
    hide Le, EntryFields;
  }

  lemma ListFieldsAre(st: Statement)
    requires st.InCaps()
    ensures var f, nm, nl := Fields(st), |st.materials|, |st.ledger|;
            && |f| == 8 + nm + nl
            && (forall m :: 0 <= m < nm ==> f[8 + m] == st.materials[m])
            && (forall l :: 0 <= l < nl ==> f[8 + nm + l] == EntryBytes(st.ledger[l]))
  {
    hide EntryBytes;
    PrefixCount(st);
  }

  lemma ByteFieldAt(fields: seq<seq<byte>>, i: nat, b: byte)
    requires i < |fields| && fields[i] == [b]
    ensures Offset(fields, i) < |Concat(fields)| && Concat(fields)[Offset(fields, i)] == b
  {
    hide Concat, Offset;
    FieldAt(fields, i);
    assert Concat(fields)[Offset(fields, i)..Offset(fields, i) + 1][0] == b;
  }

  lemma EntryReads(s: seq<byte>, off: nat, e: LedgerEntry)
    requires off + ENTRY_LEN <= |s| && s[off..off + ENTRY_LEN] == EntryBytes(e)
    ensures EntryAt(s, off) == e
  {
    hide Le, FromLe;
    WordBounds();
    assert s[off..off + 8] == s[off..off + ENTRY_LEN][..8] == Le(e.depTok, 8);
    FromLeOfLe(e.depTok, 8);
    assert s[off + 8] == s[off..off + ENTRY_LEN][8];
  }

  lemma EntrySpells(s: seq<byte>, off: nat)
    requires off + ENTRY_LEN <= |s|
    ensures EntryBytes(EntryAt(s, off)) == s[off..off + ENTRY_LEN]
  {
    hide Le, FromLe;
    LeOfFromLe(s[off..off + 8]);
    assert s[off..off + ENTRY_LEN] == s[off..off + 8] + [s[off + 8]];
  }

  /** Decoding the bytes of any statement within the caps gives that statement. */
  lemma DecodeOfCanon(st: Statement)
    requires st.InCaps()
    ensures |StatementBytes(st)| == CanonLen(st)
    ensures Decode(StatementBytes(st)) == Some(AsDecoded(st))
  {
    hide Concat, Offset, FromLe, EntryBytes, NumberAt, AsDecoded, PrefixFields, EntryAt;
    var s, f, nm, nl := StatementBytes(st), Fields(st), |st.materials|, |st.ledger|;
    PrefixReads(st);
    FieldOffsets(st);
    PrefixCount(st);
    forall m | 0 <= m < nm
      ensures MaterialAt(s, m) == st.materials[m]
    {
      FieldAt(f, 8 + m);
    }
    forall l | 0 <= l < nl
      ensures EntryAt(s, PREFIX_LEN + nm * DIGEST_LEN + l * ENTRY_LEN) == st.ledger[l]
    {
      FieldAt(f, 8 + nm + l);
      assert f[8 + nm + l] == EntryBytes(st.ledger[l]);
      EntryReads(s, PREFIX_LEN + nm * DIGEST_LEN + l * ENTRY_LEN, st.ledger[l]);
    }
    assert Spelled(s, nm, nl).materials == st.materials;
    assert Spelled(s, nm, nl).ledger == st.ledger;
  }

  lemma MaterialSpells(buf: seq<byte>, nm: nat, nl: nat, m: nat)
    requires |buf| == PREFIX_LEN + nm * DIGEST_LEN + nl * ENTRY_LEN && nm <= MAX_MATERIALS && nl <= MAX_LEDGER && m < nm
    ensures var f, off := Fields(Spelled(buf, nm, nl)), PREFIX_LEN + m * DIGEST_LEN;
            && |f| == 8 + nm + nl && Offset(f, 8 + m) == off
            && off + |f[8 + m]| <= |buf| && buf[off..off + |f[8 + m]|] == f[8 + m]
  {
    hide Offset, Fields, EntryAt;
    var st := Spelled(buf, nm, nl);
    FieldOffsets(st);
    ListFieldsAre(st);
    assert st.materials[m] == MaterialAt(buf, m);
  }

  lemma LedgerSpells(buf: seq<byte>, nm: nat, nl: nat, l: nat)
    requires |buf| == PREFIX_LEN + nm * DIGEST_LEN + nl * ENTRY_LEN && nm <= MAX_MATERIALS && nl <= MAX_LEDGER && l < nl
    ensures var f, off := Fields(Spelled(buf, nm, nl)), PREFIX_LEN + nm * DIGEST_LEN + l * ENTRY_LEN;
            && |f| == 8 + nm + nl && Offset(f, 8 + nm + l) == off
            && off + |f[8 + nm + l]| <= |buf| && buf[off..off + |f[8 + nm + l]|] == f[8 + nm + l]
  {
    hide Offset, Fields, EntryAt, EntryBytes;
    var st := Spelled(buf, nm, nl);
    FieldOffsets(st);
    ListFieldsAre(st);
    assert st.ledger[l] == EntryAt(buf, PREFIX_LEN + nm * DIGEST_LEN + l * ENTRY_LEN);
    assert Fields(st)[8 + nm + l] == EntryBytes(st.ledger[l]);
    EntrySpells(buf, PREFIX_LEN + nm * DIGEST_LEN + l * ENTRY_LEN);
  }

  /** Any buffer the decoder accepts is, byte for byte, the encoding of what it decodes to. */
  lemma CanonOfDecode(buf: seq<byte>)
    requires Decode(buf).Some?
    ensures Spelled(buf, buf[84], buf[85]).InCaps()
    ensures Decode(buf) == Some(AsDecoded(Spelled(buf, buf[84], buf[85])))
    ensures StatementBytes(Spelled(buf, buf[84], buf[85])) == buf
  {
    hide Concat, Offset, Fields, PrefixFields, NumberAt, AsDecoded;
    var nm, nl := buf[84], buf[85];
    var st := Spelled(buf, nm, nl);
    var f := Fields(st);
    FieldOffsets(st);
    forall i | 0 <= i < |f|
      ensures Offset(f, i) + |f[i]| <= |buf|
      ensures buf[Offset(f, i)..Offset(f, i) + |f[i]|] == f[i]
    {
      if i >= 8 + nm {
        LedgerSpells(buf, nm, nl, i - 8 - nm);
      } else if i >= 8 {
        MaterialSpells(buf, nm, nl, i - 8);
      } else {
        PrefixFieldSpells(buf, nm, nl, i);
      }
    }
    AssembledIs(buf, f);
  }

  lemma MagicSpells(buf: seq<byte>)
    requires |buf| >= 2
    ensures Le(NumberAt(buf, 0, 2), 2) == buf[0..2]
  {
    LeOfFromLe(buf[0..2]);
  }

  lemma PrefixFieldSpells(buf: seq<byte>, nm: nat, nl: nat, i: nat)
    requires |buf| == PREFIX_LEN + nm * DIGEST_LEN + nl * ENTRY_LEN && i < 8
    requires nm == buf[84] <= MAX_MATERIALS && nl == buf[85] <= MAX_LEDGER
    requires NumberAt(buf, 0, 2) == ATTEST_MAGIC && buf[2] == ATTEST_VERSION
    ensures var f := PrefixFields(Spelled(buf, nm, nl));
            |f| == 8 && Offset(f, i) + |f[i]| <= |buf| && buf[Offset(f, i)..Offset(f, i) + |f[i]|] == f[i]
    ensures var st := Spelled(buf, nm, nl);
            Fields(st)[i] == PrefixFields(st)[i]
  {
    hide Offset, Le, FromLe, EntryFields, NumberAt;
    PrefixOffsets(Spelled(buf, nm, nl));
    MagicSpells(buf);
  }

  /** Two statements with the same bytes are the same statement. */
  lemma CanonIsInjective(a: Statement, b: Statement)
    requires a.InCaps() && b.InCaps() && StatementBytes(a) == StatementBytes(b)
    ensures a == b
  {
    hide StatementBytes, Decode;
    DecodeOfCanon(a);
    DecodeOfCanon(b);
    assert Pad(a.materials, MAX_MATERIALS, NoDigest())[..|a.materials|] == a.materials;
    assert Pad(b.materials, MAX_MATERIALS, NoDigest())[..|b.materials|] == b.materials;
    assert Pad(a.ledger, MAX_LEDGER, LedgerEntry(0, 0))[..|a.ledger|] == a.ledger;
    assert Pad(b.ledger, MAX_LEDGER, LedgerEntry(0, 0))[..|b.ledger|] == b.ledger;
  }

  // ---- In place ------------------------------------------------------------------------------

  /** Writes the next field of a layout at its offset. */
  method PutField(out: array<byte>, off: nat, b: seq<byte>, ghost base: seq<byte>, ghost f: seq<seq<byte>>, ghost k: nat)
    requires Placed(out[..], base, f, k) && k < |f| && f[k] == b
    requires off == Offset(f, k) && off + |b| <= out.Length
    modifies out
    ensures Placed(out[..], base, f, k + 1)
  {
    hide Placed, Offset, Splice;
    PlaceNext(out[..], base, f, k);
    CopyBytes(out, off, b);
  }

  /** Encodes into the caller's buffer. A list over its cap or a buffer too small gives 0 and
      changes nothing; otherwise only the first `CanonLen` bytes change. */
  method Canon(st: Statement, out: array<byte>) returns (n: nat)
    modifies out
    ensures n == if st.InCaps() && CanonLen(st) <= out.Length then CanonLen(st) else 0
    ensures n == 0 ==> out[..] == old(out[..])
    ensures n > 0 ==> out[..] == StatementBytes(st) + old(out[..])[n..]
  {
    hide Concat, Offset, Le, Placed, PrefixFields, EntryBytes, Fields;
    var nm, nl := |st.materials|, |st.ledger|;
    if nm > MAX_MATERIALS || nl > MAX_LEDGER {
      return 0;
    }
    var total := CanonLen(st);
    if out.Length < total {
      return 0;
    }
    ghost var f, base := Fields(st), out[..];
    FieldOffsets(st);
    PrefixOffsets(st);
    PrefixCount(st);
    PrefixIs(st);
    ListFieldsAre(st);
    NonePlaced(base, f);
    PutField(out, 0, Le(ATTEST_MAGIC, 2), base, f, 0);
    PutField(out, 2, [ATTEST_VERSION], base, f, 1);
    PutField(out, 3, [st.buildType], base, f, 2);
    PutField(out, 4, st.subject, base, f, 3);
    PutField(out, 36, st.toolchain, base, f, 4);
    PutField(out, 68, st.builderId, base, f, 5);
    PutField(out, 84, [nm], base, f, 6);
    PutField(out, 85, [nl], base, f, 7);
    var off := PREFIX_LEN;
    var m := 0;
    while m < nm
      invariant 0 <= m <= nm && off == PREFIX_LEN + m * DIGEST_LEN
      invariant out.Length == |base| && Placed(out[..], base, f, 8 + m)
    {
      PutField(out, off, st.materials[m], base, f, 8 + m);
      off := off + DIGEST_LEN;
      m := m + 1;
    }
    var l := 0;
    while l < nl
      invariant 0 <= l <= nl && off == PREFIX_LEN + nm * DIGEST_LEN + l * ENTRY_LEN
      invariant out.Length == |base| && Placed(out[..], base, f, 8 + nm + l)
    {
      var e := st.ledger[l];
      PutEntry(out, off, e, base, f, 8 + nm + l);
      off := off + ENTRY_LEN;
      l := l + 1;
    }
    AllPlaced(out[..], base, f);
    n := total;
  }

  /** Writes one ledger entry: the token, then the status byte. */
  method PutEntry(out: array<byte>, off: nat, e: LedgerEntry, ghost base: seq<byte>, ghost f: seq<seq<byte>>, ghost k: nat)
    requires Placed(out[..], base, f, k) && k < |f| && f[k] == EntryBytes(e)
    requires off == Offset(f, k) && off + ENTRY_LEN <= out.Length
    modifies out
    ensures Placed(out[..], base, f, k + 1)
  {
    hide Placed, Offset, Splice, EntryBytes, Le;
    PlaceNext(out[..], base, f, k);
    EntryInTwo(out[..], off, e);
    CopyBytes(out, off, Le(e.depTok, 8));
    CopyBytes(out, off + 8, [e.status]);
  }

  lemma EntryInTwo(s: seq<byte>, off: nat, e: LedgerEntry)
    requires off + ENTRY_LEN <= |s|
    ensures Splice(Splice(s, off, Le(e.depTok, 8)), off + 8, [e.status]) == Splice(s, off, EntryBytes(e))
  {
    hide Le, Splice;
    SpliceTwice(s, off, Le(e.depTok, 8), [e.status]);
  }

  /** Decodes into fixed-capacity lists. */
  method DecodeStatement(buf: seq<byte>) returns (r: Option<Decoded>)
    ensures r == Decode(buf)
  {
    hide FromLe, EntryAt, NumberAt, MaterialAt;
    if |buf| < PREFIX_LEN {
      return None;
    }
    if NumberAt(buf, 0, 2) != ATTEST_MAGIC || buf[2] != ATTEST_VERSION {
      return None;
    }
    var nm, nl := buf[84], buf[85];
    if nm > MAX_MATERIALS || nl > MAX_LEDGER {
      return None;
    }
    var total := PREFIX_LEN + nm * DIGEST_LEN + nl * ENTRY_LEN;
    if |buf| != total {
      return None;
    }
    ghost var st := Spelled(buf, nm, nl);
    var materials := seq(MAX_MATERIALS, _ => NoDigest());
    var off := PREFIX_LEN;
    var m := 0;
    while m < nm
      invariant 0 <= m <= nm && off == PREFIX_LEN + m * DIGEST_LEN
      invariant materials == Pad(st.materials[..m], MAX_MATERIALS, NoDigest())
    {
      materials := materials[m := MaterialAt(buf, m)];
      off := off + DIGEST_LEN;
      m := m + 1;
    }
    var ledger := seq(MAX_LEDGER, _ => LedgerEntry(0, 0));
    var l := 0;
    while l < nl
      invariant 0 <= l <= nl && off == PREFIX_LEN + nm * DIGEST_LEN + l * ENTRY_LEN
      invariant ledger == Pad(st.ledger[..l], MAX_LEDGER, LedgerEntry(0, 0))
    {
      ledger := ledger[l := EntryAt(buf, off)];
      off := off + ENTRY_LEN;
      l := l + 1;
    }
    assert st.materials[..nm] == st.materials && st.ledger[..nl] == st.ledger;
    r := Some(Decoded(buf[4..36], buf[68..84], buf[3], buf[36..68], materials, nm, ledger, nl));
  }
}
