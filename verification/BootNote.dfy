/** The shared extractor for the entry note (`parse_entry64_note`, crates/tb-boot/src/lib.rs)
    beside the loader's own check (tb-vmm/src/loader.rs). */
module BootNote {
  import opened Words
  import opened Layout
  import opened ElfLoader

  datatype NoteError = BadNoteType(found: u32) | BadNoteName | ShortDesc(need: nat, got: nat)

  /** The name up to its first NUL, or all of it. */
  function UpToNul(name: seq<byte>): (r: seq<byte>)
    ensures r <= name && 0 !in r
    ensures |r| < |name| ==> name[|r|] == 0
  {
    if name == [] || name[0] == 0 then [] else [name[0]] + UpToNul(name[1..])
  }

  function ParseEntry64Note(n: Note): Result<u64, NoteError> {
    if n.nType != TB_NOTE_TYPE_ENTRY64 then Err(BadNoteType(n.nType))
    else if UpToNul(n.name) != TB_NOTE_NAME then Err(BadNoteName)
    else if |n.desc| < 8 then Err(ShortDesc(8, |n.desc|))
    else Ok(U64At(n.desc, 0))
  }

  /** A name the extractor cuts at a NUL that is not its last byte. */
  predicate PaddedName(name: seq<byte>) {
    |name| > |TB_NOTE_NAME| + 1 && name[..|TB_NOTE_NAME|] == TB_NOTE_NAME && name[|TB_NOTE_NAME|] == 0
  }

  /** The extractor's verdict on a name, and the loader's: they differ on padded names only. */
  lemma NamesAgreeIff(name: seq<byte>)
    ensures UpToNul(name) == TB_NOTE_NAME <==> StripNul(name) == TB_NOTE_NAME || PaddedName(name)
    ensures PaddedName(name) ==> StripNul(name) != TB_NOTE_NAME
  {
    var k := |TB_NOTE_NAME|;
    if |name| >= k && name[..k] == TB_NOTE_NAME && (|name| > k ==> name[k] == 0) {
      StopsAtNul(name, k);
    }
  }

  lemma {:induction false} StopsAtNul(name: seq<byte>, k: nat)
    requires k <= |name| && 0 !in name[..k] && (k < |name| ==> name[k] == 0)
    ensures UpToNul(name) == name[..k]
  {
    if k > 0 {
      assert name[..k] == [name[0]] + name[1..][..k - 1];
      StopsAtNul(name[1..], k - 1);
    }
  }

  /** Every note the loader takes, the extractor takes with the same entry. The extractor takes
      more exactly when the note is otherwise fine and its name goes on after its first NUL. */
  lemma ReadersAgreeIff(n: Note)
    ensures n.IsEntry() ==> ParseEntry64Note(n) == Ok(n.Entry())
    ensures (ParseEntry64Note(n).Ok? <==> n.IsEntry()) <==>
            !(n.nType == TB_NOTE_TYPE_ENTRY64 && |n.desc| >= 8 && PaddedName(n.name))
  {
    hide UpToNul, StripNul, PaddedName;
    NamesAgreeIff(n.name);
  }

  /** The extractor's verdict on any note: another type, another name, a short descriptor, or the number
      the descriptor starts with. */
  lemma NoteVerdicts(n: Note)
    ensures var named := UpToNul(n.name) == [0x59, 0x55, 0x56, 0x41];
            && (n.nType != 0x5955_0001 ==> ParseEntry64Note(n) == Err(BadNoteType(n.nType)))
            && (n.nType == 0x5955_0001 && !named ==> ParseEntry64Note(n) == Err(BadNoteName))
            && (n.nType == 0x5955_0001 && named && |n.desc| < 8 ==> ParseEntry64Note(n) == Err(ShortDesc(8, |n.desc|)))
            && (n.nType == 0x5955_0001 && named && |n.desc| >= 8 ==>
                  ParseEntry64Note(n).Ok? && Le(ParseEntry64Note(n).value, 8) == n.desc[..8])
  {
    hide UpToNul, Le, FromLe;
    if |n.desc| >= 8 {
      NumberWritesBack(n.desc, 0, 8);
    }
  }

  /** Such a note: the name padded with a second NUL. */
  lemma ReadersCanDiffer()
    ensures var n := Note(TB_NOTE_NAME + [0, 0], Le(0, 8), TB_NOTE_TYPE_ENTRY64);
            ParseEntry64Note(n).Ok? && !n.IsEntry()
  {
    hide UpToNul, StripNul, PaddedName;
    var n := Note(TB_NOTE_NAME + [0, 0], Le(0, 8), TB_NOTE_TYPE_ENTRY64);
    assert PaddedName(n.name) by {
      PaddedByTwo();
    }
    NamesAgreeIff(n.name);
  }

  lemma PaddedByTwo()
    ensures PaddedName(TB_NOTE_NAME + [0, 0])
  {
    assert (TB_NOTE_NAME + [0, 0])[..|TB_NOTE_NAME|] == TB_NOTE_NAME;
  }
}
