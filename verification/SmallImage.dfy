/** The claims about the unwind tables apply to something: a CIE and an FDE that print and read back, and two
    images, one whose tables hold them and one whose tables they outgrow, that `write_eh` rewrites. */
module SmallImage {
  import opened Bytes
  import opened Sorting
  import opened EhFrame
  import opened EhFrameHdr
  import opened ElfImage
  import opened EhWriter

  // --- two records ---------------------------------------------------------

  const CIE: seq<byte> :=
    [16, 0, 0, 0, 0, 0, 0, 0, 1, 'z' as int, 'R' as int, 0, 1, 0x78, 16, 1, PCREL_SDATA4, 0, 0, 0]

  function RecordsWith(rest: seq<byte>, start: int): seq<Record> {
    [Cie(CIE, true), Fde(0, start, 0x20, rest)]
  }

  lemma CieReadable()
    ensures Readable(Cie(CIE, true))
  {
    hide ParseCie, ToLE, U32;
    CieParses();
    LowWord(16);
    LowWord(0);
    U32OfLe32(CIE, 0, 16);
    U32OfLe32(CIE, 4, 0);
  }

  lemma CieParses()
    ensures ParseCie(CIE) == Ok(Cie(CIE, true))
  {
    hide ZeroAt, UlebAt, Augmentation;
    CieFields();
    assert CIE[9..11][1..] == ['R' as int];
    EncodingStated(CIE, 16);
  }

  lemma CieFields()
    ensures ZeroAt(CIE, 9) == Ok(11)
    ensures UlebAt(CIE, 12) == Ok((1, 13)) && UlebAt(CIE, 13) == Ok((0x78, 14)) && UlebAt(CIE, 15) == Ok((1, 16))
  {
    ZeroAtIs(CIE, 9, 11);
  }

  lemma EncodingStated(raw: seq<byte>, p: nat)
    requires p < |raw|
    ensures Augmentation(['R' as int], raw, p, 0) == Ok(raw[p])
  {
    assert Augmentation([], raw, p + 1, raw[p]) == Ok(raw[p]);
  }

  lemma LowWord(n: byte)
    ensures ToLE(n, 4) == [n, 0, 0, 0]
  {
    assert ToLE(0, 1) == [0] && ToLE(0, 2) == [0, 0] && ToLE(0, 3) == [0, 0, 0];
  }

  /** The two records print at every address near what they speak of, whatever trails the second. */
  lemma TwoPrint(rest: seq<byte>, start: int, va: int)
    requires 12 + |rest| < TWO32 && -0x1_0000 < start - va < 0x1_0000
    ensures Serialize(RecordsWith(rest, start), va).Ok?
    ensures SerializedSize(RecordsWith(rest, start)) == 40 + |rest| && Table(RecordsWith(rest, start), va) == [(start, va + 20)]
  {
    hide Le32, LeI32;
    var rs := RecordsWith(rest, start);
    assert rs[1..] == [rs[1]] && rs[1..][1..] == [];
    assert SerializeFrom([], va, 36 + |rest|, [0]).Ok? && SerializedSize([]) == 4 && TableFrom([], va, 36 + |rest|) == [];
    assert FdeBytes(rs[1], va, 20, 0).Ok?;
    assert [] + [0] == [0];
    assert SerializeFrom(rs[1..], va, 20, [0]).Ok?;
    assert TableFrom(rs[1..], va, 20) == [(start, va + 20)];
  }

  /** An FDE whose length field comes to the escape for 64-bit DWARF prints, and does not read back. */
  lemma EscapeUnread(va: int)
    ensures var rs := RecordsWith(Zeros(0xFFFF_FFF3), va);
            && Serialize(rs, va).Ok? && Read(Serialize(rs, va).value, va) != Ok(rs)
            && Readable(rs[0]) && !Readable(rs[1])
  {
    hide Zeros, Serialize, Read;
    CieReadable();
    var rs := RecordsWith(Zeros(0xFFFF_FFF3), va);
    TwoPrint(Zeros(0xFFFF_FFF3), va, va);
    PrintedReadsBack(rs, va);
  }

  const START: int := 0x100

  /** The records the images below are written with. */
  function Two(): seq<Record> { RecordsWith(Zeros(8), START) }

  lemma TwoReadable()
    ensures AllReadable(Two())
  {
    CieReadable();
  }

  lemma TwoTables(va: int, hdrVa: int)
    requires 0 <= va < 0x8000 && 0 <= hdrVa < 0x8000
    ensures Serialize(Two(), va).Ok? && |Serialize(Two(), va).value| == 48
    ensures SerializeHdr(Table(Two(), va), hdrVa, va).Ok? && |SerializeHdr(Table(Two(), va), hdrVa, va).value| == 20
    ensures SerializedSize(Two()) == 48 && |Fdes(Two())| == 1
  {
    hide Serialize, LeI32, Le32, Zeros, Table, Entries;
    TwoPrint(Zeros(8), START, va);
    SortOne((START, va + 20));
    OneEntry((START, va + 20), hdrVa);
    TableLength(Two(), va);
  }

  lemma SortOne(x: (int, int))
    ensures Sort(PairLe, [x]) == [x]
  {
    SortMembers(PairLe, [x], x);
  }

  lemma OneEntry(x: (int, int), hdrVa: int)
    requires FitsI32(x.0 - hdrVa) && FitsI32(x.1 - hdrVa)
    ensures Entries([x], hdrVa).Ok?
  {
    assert [x][..0] == [];
    assert Entries([], hdrVa).Ok?;
  }

  // --- two images ----------------------------------------------------------

  const SMALL: Layout := Layout(64, 56, 3, 256, 64, 3, 2)
  const HDR: Shdr := Shdr(10, 1, 2, 700, 700, 20, 0, 0, 4, 0)
  const NAMES: Shdr := Shdr(0, 3, 0, 0, 512, 24, 0, 0, 1, 0)
  const LOAD: Phdr := Phdr(PT_LOAD, 5, 0, 0, 0, 1024, 1024, 0x1000)
  const UNWIND: Phdr := Phdr(PT_GNU_EH_FRAME, 4, 700, 700, 700, 20, 20, 4)
  const NOTE: Phdr := Phdr(PT_NOTE, 4, 800, 800, 800, 32, 32, 4)

  /** The section of the records, with room for `size` bytes of them. */
  function Eh(size: nat): Shdr { Shdr(0, 1, 2, 600, 600, size, 0, 0, 8, 0) }

  function NameBytes(): (s: seq<byte>)
    ensures |s| == 24
  {
    Ascii(".eh_frame") + [0] + Ascii(".eh_frame_hdr") + [0]
  }

  function Head(): (s: seq<byte>)
    ensures |s| == 64
  {
    [0x7F, 'E' as int, 'L' as int, 'F' as int, 2, 1] + Zeros(26) + ToLE(64, 8) + ToLE(256, 8) + Zeros(6)
    + ToLE(56, 2) + ToLE(3, 2) + ToLE(64, 2) + ToLE(3, 2) + ToLE(2, 2)
  }

  lemma HeadParses(b: seq<byte>)
    requires |b| >= 64 && b[0..64] == Head()
    ensures ParseHeader(b) == Ok(SMALL)
  {
    hide ToLE, FromLE, Zeros;
    var s := Head();
    assert forall k :: 0 <= k < 64 ==> b[k] == b[0..64][k];
    assert b[..4] == [0x7F, 'E' as int, 'L' as int, 'F' as int] && b[4] == 2 && b[5] == 1;
    assert b[0x20..0x28] == ToLE(64, 8) && b[0x28..0x30] == ToLE(256, 8) && b[0x36..0x38] == ToLE(56, 2);
    assert b[0x38..0x3A] == ToLE(3, 2) && b[0x3A..0x3C] == ToLE(64, 2) && b[0x3C..0x3E] == ToLE(3, 2);
    assert b[0x3E..0x40] == ToLE(2, 2);
    SmallWords();
  }

  lemma SmallWords()
    ensures FromLE(ToLE(64, 8)) == 64 && FromLE(ToLE(256, 8)) == 256 && FromLE(ToLE(56, 2)) == 56
    ensures FromLE(ToLE(3, 2)) == 3 && FromLE(ToLE(64, 2)) == 64 && FromLE(ToLE(2, 2)) == 2
  {
    hide ToLE, FromLE;
    FieldSizes();
    FromToLE(64, 8);
    FromToLE(256, 8);
    FromToLE(56, 2);
    FromToLE(3, 2);
    FromToLE(64, 2);
    FromToLE(2, 2);
  }

  lemma FieldSizes()
    ensures Pow256(2) == 0x1_0000 && Pow256(4) == TWO32 && Pow256(8) >= TWO32
  {
    Pow256Of4();
    assert Pow256(1) == 256;
    assert Pow256(5) == 256 * Pow256(4) && Pow256(6) == 256 * Pow256(5);
    assert Pow256(7) == 256 * Pow256(6) && Pow256(8) == 256 * Pow256(7);
  }

  lemma SmallFits(fmt: seq<nat>, vals: seq<int>)
    requires |fmt| == |vals| && (forall k :: 0 <= k < |fmt| ==> fmt[k] in {4, 8}) && forall v :: v in vals ==> 0 <= v < TWO32
    ensures Fits(fmt, vals)
  {
    hide Pow256;
    FieldSizes();
    forall k | 0 <= k < |fmt| ensures 0 <= vals[k] < Pow256(fmt[k]) {
      assert vals[k] in vals;
    }
  }

  lemma {:induction false} ZeroAtIs(raw: seq<byte>, p: nat, e: nat)
    requires p <= e < |raw| && raw[e] == 0 && forall k :: p <= k < e ==> raw[k] != 0
    ensures ZeroAt(raw, p) == Ok(e)
    decreases e - p
  {
    if p < e { ZeroAtIs(raw, p + 1, e); }
  }

  lemma FindTurn(shdrs: seq<Shdr>, names: seq<byte>, name: seq<byte>, i: nat, end: nat)
    requires i < |shdrs| && ZeroAt(names, shdrs[i].name) == Ok(end)
    ensures FindFrom(shdrs, names, name, i) ==
            if names[shdrs[i].name..end] == name then Ok(Some(i)) else FindFrom(shdrs, names, name, i + 1)
  {
    hide ZeroAt;
  }

  /** A name in the table and its end. */
  lemma NameIn(n: seq<byte>, p: nat, e: nat, s: seq<byte>)
    requires p <= e < |n| && n[p..e] == s && n[e] == 0 && forall k :: 0 <= k < |s| ==> s[k] != 0
    ensures ZeroAt(n, p) == Ok(e)
  {
    hide ZeroAt;
    assert forall k :: p <= k < e ==> n[k] == s[k - p];
    ZeroAtIs(n, p, e);
  }

  lemma Printable(s: string)
    requires forall k :: 0 <= k < |s| ==> 0 < s[k] as int < 256
    ensures forall k :: 0 <= k < |s| ==> Ascii(s)[k] != 0
  {
  }

  /** The lookups in the name table. */
  lemma NamesFound(size: nat)
    ensures var shdrs := [Eh(size), HDR, NAMES];
            && FindFrom(shdrs, NameBytes(), Ascii(".eh_frame"), 0) == Ok(Some(0))
            && FindFrom(shdrs, NameBytes(), Ascii(".eh_frame_hdr"), 0) == Ok(Some(1))
            && FindFrom(shdrs, NameBytes(), Ascii(".note.ABI-tag"), 0) == Ok(None)
  {
    hide FindFrom, ZeroAt;
    var (n, x, y, z) := (NameBytes(), Ascii(".eh_frame"), Ascii(".eh_frame_hdr"), Ascii(".note.ABI-tag"));
    Printable(".eh_frame");
    Printable(".eh_frame_hdr");
    assert y[1] != z[1];
    hide Ascii;
    assert n[0..9] == x && n[10..23] == y;
    NameIn(n, 0, 9, x);
    NameIn(n, 10, 23, y);
    var shdrs := [Eh(size), HDR, NAMES];
    FindTurn(shdrs, n, x, 0, 9);
    FindTurn(shdrs, n, y, 0, 9);
    FindTurn(shdrs, n, y, 1, 23);
    FindTurn(shdrs, n, z, 0, 9);
    FindTurn(shdrs, n, z, 1, 23);
    FindTurn(shdrs, n, z, 2, 9);
    FindEnd(shdrs, n, z);
  }

  lemma FindEnd(shdrs: seq<Shdr>, names: seq<byte>, name: seq<byte>)
    ensures FindFrom(shdrs, names, name, |shdrs|) == Ok(None)
  {
  }

  lemma SmallTables(b: seq<byte>)
    requires |b| >= 1024
    ensures TablesIn(b, SMALL) && PhSlot(SMALL, 3) == 232 && ShSlot(SMALL, 3) == 448
  {
    var l := SMALL;
    assert l.phnum * l.phent == 168 && l.shnum * l.shent == 192;
  }

  /** The tables of an image with room for `size` bytes of records. */
  ghost predicate IsSmall(b: seq<byte>, size: nat) {
    && |b| == 1024 && TablesIn(b, SMALL) && ParseHeader(b) == Ok(SMALL) && b[512..536] == NameBytes()
    && Shdrs(b, SMALL) == [Eh(size), HDR, NAMES] && Phdrs(b, SMALL) == [LOAD, UNWIND, NOTE]
  }

  lemma WriteShdr(b: seq<byte>, i: nat, s: Shdr) returns (b': seq<byte>)
    requires TablesIn(b, SMALL) && |b| == 1024 && i < 3 && forall v :: v in ShdrFields(s) ==> v < TWO32
    ensures TablesIn(b', SMALL) && |b'| == 1024 && Shdrs(b', SMALL) == Shdrs(b, SMALL)[i := s]
    ensures b'[512..536] == b[512..536] && b'[0..64] == b[0..64] && Phdrs(b', SMALL) == Phdrs(b, SMALL)
  {
    hide Shdrs, Phdrs, Splice;
    SmallFits(SHDR, ShdrFields(s));
    SmallTables(b);
    b' := PutShdr(b, SMALL, i, s).value;
    PutShdrReads(b, SMALL, i, s);
    SameSlice(b, b', 512, 536);
    SameSlice(b, b', 0, 64);
    PhdrsSame(b, b', SMALL);
  }

  lemma WritePhdr(b: seq<byte>, i: nat, p: Phdr) returns (b': seq<byte>)
    requires TablesIn(b, SMALL) && |b| == 1024 && i < 3 && forall v :: v in PhdrFields(p) ==> v < TWO32
    ensures TablesIn(b', SMALL) && |b'| == 1024 && Phdrs(b', SMALL) == Phdrs(b, SMALL)[i := p]
    ensures b'[512..536] == b[512..536] && b'[0..64] == b[0..64] && Shdrs(b', SMALL) == Shdrs(b, SMALL)
  {
    hide Shdrs, Phdrs, Splice;
    SmallFits(PHDR, PhdrFields(p));
    SmallTables(b);
    b' := PutPhdr(b, SMALL, i, p).value;
    PutPhdrReads(b, SMALL, i, p);
    SameSlice(b, b', 512, 536);
    SameSlice(b, b', 0, 64);
    ShdrsSame(b, b', SMALL);
  }

  lemma ThreeSet<T>(s: seq<T>, a: T, b: T, c: T)
    requires |s| == 3
    ensures s[0 := a][1 := b][2 := c] == [a, b, c]
  {
  }

  /** The headers written over an empty file. */
  lemma Built(size: nat) returns (b: seq<byte>)
    requires size <= 64
    ensures IsSmall(b, size)
  {
    hide Shdrs, Phdrs, Splice, NameBytes, Head, Zeros, TablesIn, ParseHeader;
    var z := Splice(Zeros(1024), 512, NameBytes());
    b := Splice(z, 0, Head());
    SameSlice(z, b, 512, 536);
    SmallTables(b);
    ThreeSet(Shdrs(b, SMALL), Eh(size), HDR, NAMES);
    ThreeSet(Phdrs(b, SMALL), LOAD, UNWIND, NOTE);
    b := WriteShdr(b, 0, Eh(size));
    b := WriteShdr(b, 1, HDR);
    b := WriteShdr(b, 2, NAMES);
    b := WritePhdr(b, 0, LOAD);
    b := WritePhdr(b, 1, UNWIND);
    b := WritePhdr(b, 2, NOTE);
    HeadParses(b);
  }

  lemma SmallNames(b: seq<byte>, size: nat)
    requires IsSmall(b, size)
    ensures FindSection(b, SMALL, ".eh_frame") == Ok(Some(0)) && FindSection(b, SMALL, ".eh_frame_hdr") == Ok(Some(1))
    ensures FindSection(b, SMALL, ".note.ABI-tag") == Ok(None)
  {
    hide Shdrs, Phdrs, FindFrom, NameBytes, Ascii, ParseHeader, TablesIn;
    NamesFound(size);
    assert Names(b, Shdrs(b, SMALL), SMALL) == NameBytes();
  }

  lemma SmallRegular(b: seq<byte>, size: nat)
    requires IsSmall(b, size) && size <= 64
    ensures Regular(b, SMALL, 0, 1) && UnwindInFile(b, SMALL)
    ensures ShdrAt(b, SMALL, 0) == Eh(size) && ShdrAt(b, SMALL, 1) == HDR
    ensures Needed(b, SMALL, ".eh_frame") == Ok(0) && Needed(b, SMALL, ".eh_frame_hdr") == Ok(1)
  {
    hide Shdrs, Phdrs, FindSection, NameBytes, ShdrOf, PhdrOf, ParseHeader;
    SmallNames(b, size);
    SmallTables(b);
    assert ShdrAt(b, SMALL, 0) == Shdrs(b, SMALL)[0] && ShdrAt(b, SMALL, 1) == Shdrs(b, SMALL)[1];
    assert ShdrAt(b, SMALL, 2) == Shdrs(b, SMALL)[2];
  }

  /** Where the records fit, to the byte, they are written in place. */
  lemma FittingImage() returns (b: seq<byte>)
    ensures ParseHeader(b) == Ok(SMALL) && Regular(b, SMALL, 0, 1) && UnwindInFile(b, SMALL)
    ensures AllReadable(Two()) && WriteEh(b, SMALL, Two()).Ok?
    ensures |WriteEh(b, SMALL, Two()).value| == |b|
  {
    hide Phdrs, Shdrs, Regular, Serialize, SerializeHdr, Table, PhdrOf, ShdrOf, ParseHeader, TablesIn, UnwindInFile,
      AllReadable, NameBytes, Two, CanMove, Fdes, WriteEh, Rewritten, EhAfter, HdrAfter;
    b := Built(48);
    SmallRegular(b, 48);
    TwoReadable();
    TwoTables(600, 700);
    WriteSucceeds(b, SMALL, Two(), 0, 1);
    var e', h' := WriteRewrites(b, SMALL, Two(), 0, 1);
  }

  /** With one byte less for them, both tables move into a new segment, in the place of the note. */
  lemma OutgrownImage() returns (b: seq<byte>)
    ensures ParseHeader(b) == Ok(SMALL) && Regular(b, SMALL, 0, 1) && UnwindInFile(b, SMALL)
    ensures AllReadable(Two()) && WriteEh(b, SMALL, Two()).Ok?
    ensures |WriteEh(b, SMALL, Two()).value| == 0x1000 + 24 + 48
  {
    hide Phdrs, Shdrs, Regular, Serialize, SerializeHdr, Table, PhdrOf, ShdrOf, ParseHeader, TablesIn, UnwindInFile,
      AllReadable, NameBytes, Two, CanMove, Fdes, WriteEh, Rewritten, EhAfter, HdrAfter, FreshVa, LoadAlign;
    b := Built(47);
    SmallRegular(b, 47);
    TwoReadable();
    TwoTables(600, 700);
    SmallMoves(b);
    SmallVa();
    WriteSucceeds(b, SMALL, Two(), 0, 1);
    var e', h' := WriteRewrites(b, SMALL, Two(), 0, 1);
  }

  lemma SmallMoves(b: seq<byte>)
    requires IsSmall(b, 47)
    ensures CanMove(b, SMALL, Eh(47), HDR, Two())
  {
    hide Phdrs, Shdrs, Serialize, SerializeHdr, Table, FindSection, PhdrOf, ShdrOf, ParseHeader, TablesIn, NameBytes, Two,
      FreshVa, LoadAlign, SpareSlot, Fdes;
    SmallNames(b, 47);
    SmallVa();
    SpareIsNote(None);
    TwoTables(600, 700);
    TwoTables(0x1000 + 24, 0x1000);
  }

  lemma SmallVa()
    ensures LoadAlign([LOAD, UNWIND, NOTE]) == 0x1000 && FreshVa([LOAD, UNWIND, NOTE]) == 0x1000
    ensures Align(20, 8) == 24 && Align(1024, 0x1000) == 0x1000
  {
    var ph := [LOAD, UNWIND, NOTE];
    assert ph[..2] == [LOAD, UNWIND] && [LOAD, UNWIND][..1] == [LOAD] && [LOAD][..0] == [];
    assert LoadAlign([LOAD]) == 0x1000 && LoadEnd([LOAD]) == 1024;
    assert LoadAlign([LOAD, UNWIND]) == 0x1000 && LoadEnd([LOAD, UNWIND]) == 1024;
  }

  lemma SpareIsNote(abi: Option<nat>)
    requires abi.Some? ==> abi.value < NOTE.offset
    ensures SpareSlot([LOAD, UNWIND, NOTE], abi) == Ok(2)
  {
    var ph := [LOAD, UNWIND, NOTE];
    assert ph[0].kind == PT_LOAD && SpareNote(ph[2], abi);
    assert IsSpare(ph, abi, 2) && BehindLoads(ph, 2);
  }
}
