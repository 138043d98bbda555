/** The ELF64 file as bytes, and the edits on its headers: program headers and section headers as chapter
    5 and chapter 4 of the gABI lay them out, the lookup of a section, and the new load segment. */
module ElfImage {
  import opened Bytes
  import opened EhFrame

  const PT_LOAD: nat := 1
  const PT_NOTE: nat := 4
  const PT_GNU_EH_FRAME: nat := 0x6474E550
  const PT_GNU_SFRAME: nat := 0x6474E554

  const PHDR: seq<nat> := [4, 4, 8, 8, 8, 8, 8, 8]
  const SHDR: seq<nat> := [4, 4, 8, 8, 8, 8, 4, 4, 8, 8]

  datatype Phdr = Phdr(kind: nat, flags: nat, offset: nat, vaddr: nat, paddr: nat, filesz: nat, memsz: nat, align: nat)

  datatype Shdr = Shdr(name: nat, kind: nat, flags: nat, addr: nat, offset: nat, size: nat, link: nat, info: nat, align: nat, entsize: nat)

  /** What the file header says about the two header tables. */
  datatype Layout = Layout(phoff: nat, phent: nat, phnum: nat, shoff: nat, shent: nat, shnum: nat, shstrndx: nat)

  /** `Elf.__init__`: the file header of an ELF64 little-endian file. */
  function ParseHeader(b: seq<byte>): Result<Layout> {
    if |b| < 64 || b[..4] != [0x7F, 'E' as int, 'L' as int, 'F' as int] || b[4] != 2 || b[5] != 1 then Err
    else
      Ok(Layout(FromLE(b[0x20..0x28]), FromLE(b[0x36..0x38]), FromLE(b[0x38..0x3A]),
                FromLE(b[0x28..0x30]), FromLE(b[0x3A..0x3C]), FromLE(b[0x3C..0x3E]), FromLE(b[0x3E..0x40])))
  }

  /** The file header of chapter 4 of the gABI: the four bytes of the magic and twelve more of `e_ident`, then
      the fields from `e_type` to `e_shstrndx`. */
  const EHDR: seq<nat> := [4, 1, 1, 10, 2, 2, 4, 8, 8, 8, 4, 2, 2, 2, 2, 2, 2]

  lemma EhdrSizes()
    ensures Size(EHDR) == 64 && Size(EHDR[..8]) == 0x20 && Size(EHDR[..9]) == 0x28 && Size(EHDR[..12]) == 0x36
    ensures Size(EHDR[..13]) == 0x38 && Size(EHDR[..14]) == 0x3A && Size(EHDR[..15]) == 0x3C && Size(EHDR[..16]) == 0x3E
  {
    hide Size;
    SizeOf8(EHDR[..8]);
    OneMore(EHDR, 8);
    OneMore(EHDR, 9);
    OneMore(EHDR, 10);
    OneMore(EHDR, 11);
    OneMore(EHDR, 12);
    OneMore(EHDR, 13);
    OneMore(EHDR, 14);
    OneMore(EHDR, 15);
    OneMore(EHDR, 16);
    assert EHDR[..17] == EHDR;
  }

  /** The layout is what the fields of that name in the file header say. */
  lemma HeaderFields(b: seq<byte>)
    requires ParseHeader(b).Ok?
    ensures |b| >= 64 && Size(EHDR) == 64
    ensures var (l, v) := (ParseHeader(b).value, Unpack(EHDR, b[..64]));
            && l.phoff == v[8] && l.shoff == v[9] && l.phent == v[12] && l.phnum == v[13]
            && l.shent == v[14] && l.shnum == v[15] && l.shstrndx == v[16]
  {
    hide Unpack, FromLE, Size;
    EhdrSizes();
    HeaderField(b, 8);
    HeaderField(b, 9);
    HeaderField(b, 12);
    HeaderField(b, 13);
    HeaderField(b, 14);
    HeaderField(b, 15);
    HeaderField(b, 16);
  }

  /** Which files are loaded: those of 64 bytes or more whose identification is that of a little-endian ELF64. */
  lemma HeaderExactly(b: seq<byte>)
    ensures ParseHeader(b).Ok? <==>
            |b| >= 64 && b[0] == 0x7F && b[1] == 0x45 && b[2] == 0x4C && b[3] == 0x46 && b[4] == 2 && b[5] == 1
  {
    if |b| >= 64 {
      assert b[..4] == [b[0], b[1], b[2], b[3]];
    }
  }

  lemma HeaderField(b: seq<byte>, k: nat)
    requires |b| >= 64 && Size(EHDR) == 64 && k < |EHDR|
    ensures Size(EHDR[..k]) + EHDR[k] <= 64
    ensures Unpack(EHDR, b[..64])[k] == FromLE(b[Size(EHDR[..k])..Size(EHDR[..k]) + EHDR[k]])
  {
    hide Unpack, FromLE, Size;
    FieldAt(EHDR, b[..64], k);
    var (lo, hi) := (Size(EHDR[..k]), Size(EHDR[..k]) + EHDR[k]);
    assert b[..64][lo..hi] == b[lo..hi];
  }

  lemma HeaderSizes()
    ensures Size(PHDR) == 56 && Size(SHDR) == 64
  {
    hide Size;
    SizeOf8(PHDR);
    SizeOf8(SHDR[..8]);
    SizeSplit(SHDR, 8);
    assert SHDR[8..] == [8, 8];
    SizeOf2([8, 8]);
  }

  lemma SizeOf2(f: seq<nat>)
    requires |f| == 2
    ensures Size(f) == f[0] + f[1]
  {
    assert f[1..] == [f[1]];
    SizeOne(f[1]);
  }

  lemma SizeOf8(f: seq<nat>)
    requires |f| == 8
    ensures Size(f) == f[0] + f[1] + f[2] + f[3] + f[4] + f[5] + f[6] + f[7]
  {
    hide Size;
    SizeSplit(f, 2);
    SizeSplit(f[2..], 2);
    SizeSplit(f[2..][2..], 2);
    SizeOf2(f[..2]);
    SizeOf2(f[2..][..2]);
    SizeOf2(f[2..][2..][..2]);
    SizeOf2(f[2..][2..][2..]);
  }

  lemma {:induction false} SizeSplit(f: seq<nat>, n: nat)
    requires n <= |f|
    ensures Size(f) == Size(f[..n]) + Size(f[n..])
  {
    if n == 0 {
      assert f[0..] == f && f[..0] == [];
    } else {
      SizeSplit(f[1..], n - 1);
      assert f[..n][1..] == f[1..][..n - 1] && f[1..][n - 1..] == f[n..];
    }
  }

  function PhSlot(l: Layout, i: nat): nat { l.phoff + i * l.phent }

  function ShSlot(l: Layout, i: nat): nat { l.shoff + i * l.shent }

  /** Both tables lie in the file and their entries are whole. */
  predicate TablesIn(b: seq<byte>, l: Layout) {
    && l.phent >= 56 && PhSlot(l, l.phnum) <= |b|
    && l.shent >= 64 && ShSlot(l, l.shnum) <= |b|
  }

  /** An entry lies in its table, and two entries do not overlap. */
  lemma Slots(off: nat, ent: nat, num: nat, i: nat)
    requires i < num
    ensures off <= off + i * ent && off + i * ent + ent <= off + num * ent
    ensures forall j :: i < j < num ==> off + i * ent + ent <= off + j * ent
    ensures forall j :: 0 <= j < i ==> off + j * ent + ent <= off + i * ent
  {
    SlotsApart(ent, i, num);
    forall j | i < j < num ensures off + i * ent + ent <= off + j * ent {
      SlotsApart(ent, i, j);
    }
    forall j | 0 <= j < i ensures off + j * ent + ent <= off + i * ent {
      SlotsApart(ent, j, i);
    }
  }

  lemma SlotsApart(ent: nat, i: nat, j: nat)
    requires i < j
    ensures i * ent + ent <= j * ent
  {
    MulAtLeast(j, i + 1, ent);
  }

  function PhdrFields(p: Phdr): seq<int> {
    [p.kind, p.flags, p.offset, p.vaddr, p.paddr, p.filesz, p.memsz, p.align]
  }

  function ShdrFields(s: Shdr): seq<int> {
    [s.name, s.kind, s.flags, s.addr, s.offset, s.size, s.link, s.info, s.align, s.entsize]
  }

  function PhdrOf(s: seq<byte>): Phdr
    requires |s| == 56
  {
    HeaderSizes();
    var v := Unpack(PHDR, s);
    Phdr(v[0], v[1], v[2], v[3], v[4], v[5], v[6], v[7])
  }

  function ShdrOf(s: seq<byte>): Shdr
    requires |s| == 64
  {
    HeaderSizes();
    var v := Unpack(SHDR, s);
    Shdr(v[0], v[1], v[2], v[3], v[4], v[5], v[6], v[7], v[8], v[9])
  }

  /** The places of the program header fields the editor uses, as chapter 5 of the gABI gives them. */
  lemma PhdrOffsets(s: seq<byte>)
    requires |s| == 56
    ensures var p := PhdrOf(s);
            && p.kind == FromLE(s[0..4]) && p.flags == FromLE(s[4..8]) && p.offset == FromLE(s[8..16])
            && p.vaddr == FromLE(s[16..24]) && p.paddr == FromLE(s[24..32])
            && p.filesz == FromLE(s[32..40]) && p.memsz == FromLE(s[40..48]) && p.align == FromLE(s[48..56])
  {
    hide Unpack, Size, FromLE;
    HeaderSizes();
    PrefixSizes(PHDR);
    SizeOne(4);
    assert PHDR[..1] == [4];
    FieldAt(PHDR, s, 0);
    FieldAt(PHDR, s, 1);
    FieldAt(PHDR, s, 2);
    FieldAt(PHDR, s, 3);
    FieldAt(PHDR, s, 4);
    FieldAt(PHDR, s, 5);
    FieldAt(PHDR, s, 6);
    FieldAt(PHDR, s, 7);
  }

  /** The places of the section header fields the editor uses, as chapter 4 of the gABI gives them. */
  lemma ShdrOffsets(s: seq<byte>)
    requires |s| == 64
    ensures var h := ShdrOf(s);
            && h.name == FromLE(s[0..4]) && h.addr == FromLE(s[16..24])
            && h.offset == FromLE(s[24..32]) && h.size == FromLE(s[32..40])
  {
    hide Unpack, Size, FromLE;
    HeaderSizes();
    PrefixSizes(SHDR);
    FieldAt(SHDR, s, 0);
    FieldAt(SHDR, s, 3);
    FieldAt(SHDR, s, 4);
    FieldAt(SHDR, s, 5);
  }

  /** Both structs begin with two words of four bytes and four of eight. */
  lemma PrefixSizes(f: seq<nat>)
    requires |f| >= 8 && f[0] == f[1] == 4 && f[2] == f[3] == f[4] == f[5] == 8
    ensures Size(f[..0]) == 0 && Size(f[..2]) == 8 && Size(f[..3]) == 16 && Size(f[..4]) == 24
    ensures Size(f[..5]) == 32 && Size(f[..6]) == 40 && Size(f[..7]) == 40 + f[6]
  {
    hide Size;
    SizeOf2(f[..2]);
    assert Size([]) == 0 by { SizeNone(); }
    assert f[..0] == [];
    OneMore(f, 2);
    OneMore(f, 3);
    OneMore(f, 4);
    OneMore(f, 5);
    OneMore(f, 6);
  }

  lemma SizeNone()
    ensures Size([]) == 0
  {
  }

  lemma OneMore(f: seq<nat>, k: nat)
    requires k < |f|
    ensures Size(f[..k + 1]) == Size(f[..k]) + f[k]
  {
    hide Size;
    var g := f[..k + 1];
    SizeSplit(g, k);
    assert g[..k] == f[..k] && g[k..] == [f[k]];
    SizeOne(f[k]);
  }

  lemma SizeOne(w: nat)
    ensures Size([w]) == w
  {
    assert [w][1..] == [];
  }

  function PhdrAt(b: seq<byte>, l: Layout, i: nat): Phdr
    requires TablesIn(b, l) && i < l.phnum
  {
    Slots(l.phoff, l.phent, l.phnum, i);
    PhdrOf(b[PhSlot(l, i)..PhSlot(l, i) + 56])
  }

  function ShdrAt(b: seq<byte>, l: Layout, i: nat): Shdr
    requires TablesIn(b, l) && i < l.shnum
  {
    Slots(l.shoff, l.shent, l.shnum, i);
    ShdrOf(b[ShSlot(l, i)..ShSlot(l, i) + 64])
  }

  /** `phdrs()`: the whole program header table. */
  function Phdrs(b: seq<byte>, l: Layout): (r: seq<Phdr>)
    requires TablesIn(b, l)
    ensures |r| == l.phnum && forall i :: 0 <= i < l.phnum ==> r[i] == PhdrAt(b, l, i)
  {
    seq(l.phnum, i requires 0 <= i < l.phnum => PhdrAt(b, l, i))
  }

  function Shdrs(b: seq<byte>, l: Layout): (r: seq<Shdr>)
    requires TablesIn(b, l)
    ensures |r| == l.shnum && forall i :: 0 <= i < l.shnum ==> r[i] == ShdrAt(b, l, i)
  {
    seq(l.shnum, i requires 0 <= i < l.shnum => ShdrAt(b, l, i))
  }

  // --- writing one entry ---------------------------------------------------

  /** `write_phdr`: raises when a value does not fit its field. */
  function PutPhdr(b: seq<byte>, l: Layout, i: nat, p: Phdr): (r: Result<seq<byte>>)
    requires TablesIn(b, l) && i < l.phnum
    ensures r.Ok? ==> |r.value| == |b|
  {
    HeaderSizes();
    Slots(l.phoff, l.phent, l.phnum, i);
    var s :- Pack(PHDR, PhdrFields(p));
    Ok(Splice(b, PhSlot(l, i), s))
  }

  /** `_SHDR.pack_into` at entry `i`. */
  function PutShdr(b: seq<byte>, l: Layout, i: nat, s: Shdr): (r: Result<seq<byte>>)
    requires TablesIn(b, l) && i < l.shnum
    ensures r.Ok? ==> |r.value| == |b|
  {
    HeaderSizes();
    Slots(l.shoff, l.shent, l.shnum, i);
    var s :- Pack(SHDR, ShdrFields(s));
    Ok(Splice(b, ShSlot(l, i), s))
  }

  /** The bytes from `lo` to `hi` of the one are those of the other. */
  ghost predicate Same(b: seq<byte>, b': seq<byte>, lo: nat, hi: nat) {
    hi <= |b| && hi <= |b'| && forall k :: lo <= k < hi ==> b'[k] == b[k]
  }

  lemma SameSlice(b: seq<byte>, b': seq<byte>, lo: nat, hi: nat)
    requires Same(b, b', lo, hi) && lo <= hi
    ensures b[lo..hi] == b'[lo..hi]
  {
  }

  lemma PhdrsSame(b: seq<byte>, b': seq<byte>, l: Layout)
    requires TablesIn(b, l) && TablesIn(b', l) && Same(b, b', l.phoff, PhSlot(l, l.phnum))
    ensures Phdrs(b', l) == Phdrs(b, l)
  {
    hide PhdrOf;
    forall i | 0 <= i < l.phnum ensures PhdrAt(b', l, i) == PhdrAt(b, l, i) {
      Slots(l.phoff, l.phent, l.phnum, i);
      SameSlice(b, b', PhSlot(l, i), PhSlot(l, i) + 56);
    }
  }

  lemma ShdrsSame(b: seq<byte>, b': seq<byte>, l: Layout)
    requires TablesIn(b, l) && TablesIn(b', l) && Same(b, b', l.shoff, ShSlot(l, l.shnum))
    ensures Shdrs(b', l) == Shdrs(b, l)
  {
    hide ShdrOf;
    forall i | 0 <= i < l.shnum ensures ShdrAt(b', l, i) == ShdrAt(b, l, i) {
      Slots(l.shoff, l.shent, l.shnum, i);
      SameSlice(b, b', ShSlot(l, i), ShSlot(l, i) + 64);
    }
  }

  lemma PhdrOfPacked(p: Phdr)
    requires Fits(PHDR, PhdrFields(p))
    ensures |Packed(PHDR, PhdrFields(p))| == 56 && PhdrOf(Packed(PHDR, PhdrFields(p))) == p
  {
    hide Packed, Unpack, Size;
    HeaderSizes();
    UnpackPacked(PHDR, PhdrFields(p));
  }

  lemma ShdrOfPacked(s: Shdr)
    requires Fits(SHDR, ShdrFields(s))
    ensures |Packed(SHDR, ShdrFields(s))| == 64 && ShdrOf(Packed(SHDR, ShdrFields(s))) == s
  {
    hide Packed, Unpack, Size;
    HeaderSizes();
    UnpackPacked(SHDR, ShdrFields(s));
  }

  /** What writing the entry at `at` of a table does to the entry at `o`. */
  lemma EntryAfterSplice(b: seq<byte>, lo: nat, hi: nat, at: nat, o: nat, d: seq<byte>)
    requires lo <= at && at + |d| <= hi <= |b| && lo <= o && o + |d| <= hi
    requires at == o || at + |d| <= o || o + |d| <= at
    ensures Splice(b, at, d)[o..o + |d|] == if at == o then d else b[o..o + |d|]
    ensures forall k :: 0 <= k < |b| && !(lo <= k < hi) ==> Splice(b, at, d)[k] == b[k]
  {
    if at != o && d != [] {
      EntryKept(b, at, d, o);
    }
  }

  lemma EntryKept(b: seq<byte>, at: nat, d: seq<byte>, o: nat)
    requires at + |d| <= |b| && o + |d| <= |b| && (at + |d| <= o || o + |d| <= at)
    ensures Splice(b, at, d)[o..o + |d|] == b[o..o + |d|]
  {
  }

  /** A written program header reads back, and no other entry changes. */
  lemma PutPhdrReads(b: seq<byte>, l: Layout, i: nat, p: Phdr)
    requires TablesIn(b, l) && i < l.phnum && PutPhdr(b, l, i, p).Ok?
    ensures var b' := PutPhdr(b, l, i, p).value;
            && TablesIn(b', l) && Phdrs(b', l) == Phdrs(b, l)[i := p]
            && forall k :: 0 <= k < |b| && !(l.phoff <= k < PhSlot(l, l.phnum)) ==> b'[k] == b[k]
  {
    hide PhdrOf, Packed, Size, Phdrs, Splice;
    PhdrOfPacked(p);
    var d := Packed(PHDR, PhdrFields(p));
    var b' := PutPhdr(b, l, i, p).value;
    Slots(l.phoff, l.phent, l.phnum, i);
    EntryAfterSplice(b, l.phoff, PhSlot(l, l.phnum), PhSlot(l, i), PhSlot(l, i), d);
    forall j | 0 <= j < l.phnum ensures PhdrAt(b', l, j) == if j == i then p else PhdrAt(b, l, j) {
      Slots(l.phoff, l.phent, l.phnum, j);
      EntryAfterSplice(b, l.phoff, PhSlot(l, l.phnum), PhSlot(l, i), PhSlot(l, j), d);
    }
  }

  lemma PutShdrReads(b: seq<byte>, l: Layout, i: nat, s: Shdr)
    requires TablesIn(b, l) && i < l.shnum && PutShdr(b, l, i, s).Ok?
    ensures var b' := PutShdr(b, l, i, s).value;
            && TablesIn(b', l) && Shdrs(b', l) == Shdrs(b, l)[i := s]
            && forall k :: 0 <= k < |b| && !(l.shoff <= k < ShSlot(l, l.shnum)) ==> b'[k] == b[k]
  {
    hide ShdrOf, Packed, Size, Shdrs, Splice;
    ShdrOfPacked(s);
    var d := Packed(SHDR, ShdrFields(s));
    var b' := PutShdr(b, l, i, s).value;
    Slots(l.shoff, l.shent, l.shnum, i);
    EntryAfterSplice(b, l.shoff, ShSlot(l, l.shnum), ShSlot(l, i), ShSlot(l, i), d);
    forall j | 0 <= j < l.shnum ensures ShdrAt(b', l, j) == if j == i then s else ShdrAt(b, l, j) {
      Slots(l.shoff, l.shent, l.shnum, j);
      EntryAfterSplice(b, l.shoff, ShSlot(l, l.shnum), ShSlot(l, i), ShSlot(l, j), d);
    }
  }

  // --- sections by name ----------------------------------------------------

  function Ascii(s: string): (r: seq<byte>)
    ensures |r| == |s|
  {
    seq(|s|, i requires 0 <= i < |s| => s[i] as int % 256)
  }

  /** The section name table. */
  function Names(b: seq<byte>, shdrs: seq<Shdr>, l: Layout): seq<byte>
    requires l.shstrndx < |shdrs|
  {
    var s := shdrs[l.shstrndx];
    Slice(b, s.offset, s.offset + s.size)
  }

  /** `section(name)` from entry `i` on: its index, or none; raises on a name without its terminator. */
  function FindFrom(shdrs: seq<Shdr>, names: seq<byte>, name: seq<byte>, i: nat): (r: Result<Option<nat>>)
    ensures r.Ok? && r.value.Some? ==> r.value.value < |shdrs|
    decreases |shdrs| - i
  {
    if i >= |shdrs| then Ok(None)
    else
      var end :- ZeroAt(names, shdrs[i].name);
      if names[shdrs[i].name..end] == name then Ok(Some(i)) else FindFrom(shdrs, names, name, i + 1)
  }

  function FindSection(b: seq<byte>, l: Layout, name: string): (r: Result<Option<nat>>)
    requires TablesIn(b, l) && l.shstrndx < l.shnum
    ensures r.Ok? && r.value.Some? ==> r.value.value < l.shnum
  {
    FindFrom(Shdrs(b, l), Names(b, Shdrs(b, l), l), Ascii(name), 0)
  }

  method Section(b: seq<byte>, l: Layout, name: string) returns (r: Result<Option<nat>>)
    requires TablesIn(b, l) && l.shstrndx < l.shnum
    ensures r == FindSection(b, l, name)
  {
    hide ShdrAt, Shdrs, Names, ZeroAt, Ascii, PhSlot, ShSlot;
    var shdrs := Shdrs(b, l);
    var names := Names(b, shdrs, l);
    var i := 0;
    while i < l.shnum
      invariant 0 <= i <= l.shnum
      invariant FindSection(b, l, name) == FindFrom(shdrs, names, Ascii(name), i)
    {
      var end :- ZeroAt(names, shdrs[i].name);
      if names[shdrs[i].name..end] == Ascii(name) { return Ok(Some(i)); }
      i := i + 1;
    }
    return Ok(None);
  }

  /** The name of a section: the bytes up to the first zero, none where there is no zero. */
  function NameOf(names: seq<byte>, s: Shdr): Option<seq<byte>> {
    var end := ZeroAt(names, s.name);
    if end.Ok? then Some(names[s.name..end.value]) else None
  }

  /** What the lookup finds: the first section of that name, behind sections whose names all end; none when all
      names end and none is it; and it raises otherwise. */
  lemma {:induction false} FindExactly(shdrs: seq<Shdr>, names: seq<byte>, name: seq<byte>, i: nat, j: nat)
    requires i <= |shdrs|
    ensures var r := FindFrom(shdrs, names, name, i);
            && (r == Ok(Some(j)) <==>
                  && i <= j < |shdrs| && NameOf(names, shdrs[j]) == Some(name)
                  && forall k :: i <= k < j ==> NameOf(names, shdrs[k]).Some? && NameOf(names, shdrs[k]) != Some(name))
            && (r == Ok(None) <==> forall k :: i <= k < |shdrs| ==> NameOf(names, shdrs[k]).Some? && NameOf(names, shdrs[k]) != Some(name))
    decreases |shdrs| - i
  {
    hide ZeroAt;
    if i < |shdrs| {
      FindExactly(shdrs, names, name, i + 1, j);
    }
  }

  /** Lookups read the names only. */
  lemma {:induction false} FindSame(shdrs: seq<Shdr>, shdrs': seq<Shdr>, names: seq<byte>, name: seq<byte>, i: nat)
    requires |shdrs| == |shdrs'| && forall k :: 0 <= k < |shdrs| ==> shdrs[k].name == shdrs'[k].name
    ensures FindFrom(shdrs, names, name, i) == FindFrom(shdrs', names, name, i)
    decreases |shdrs| - i
  {
    if i < |shdrs| {
      FindSame(shdrs, shdrs', names, name, i + 1);
    }
  }

  /** Two names never find one section. */
  lemma {:induction false} FindDistinct(shdrs: seq<Shdr>, names: seq<byte>, n1: seq<byte>, n2: seq<byte>, i: nat, j: nat)
    requires n1 != n2
    requires FindFrom(shdrs, names, n1, i).Ok? && FindFrom(shdrs, names, n1, i).value.Some?
    requires FindFrom(shdrs, names, n2, j).Ok? && FindFrom(shdrs, names, n2, j).value.Some?
    ensures FindFrom(shdrs, names, n1, i).value != FindFrom(shdrs, names, n2, j).value
    decreases |shdrs| - i + |shdrs| - j
  {
    var end := ZeroAt(names, shdrs[i].name).value;
    var end' := ZeroAt(names, shdrs[j].name).value;
    if names[shdrs[i].name..end] != n1 {
      FindDistinct(shdrs, names, n1, n2, i + 1, j);
    } else if names[shdrs[j].name..end'] != n2 {
      FindDistinct(shdrs, names, n1, n2, i, j + 1);
    }
  }

  // --- a new load segment --------------------------------------------------

  /** The last entry `pick` holds of. */
  function LastIndex(ph: seq<Phdr>, pick: Phdr -> bool): (r: Option<nat>)
    ensures r.Some? ==> r.value < |ph| && pick(ph[r.value]) && forall i :: r.value < i < |ph| ==> !pick(ph[i])
    ensures r.None? ==> forall i :: 0 <= i < |ph| ==> !pick(ph[i])
  {
    if ph == [] then None
    else if pick(ph[|ph| - 1]) then Some(|ph| - 1)
    else LastIndex(ph[..|ph| - 1], pick)
  }

  function Max(a: nat, b: nat): nat { if a < b then b else a }

  /** The greatest alignment of a load segment. */
  function LoadAlign(ph: seq<Phdr>): (r: nat)
    ensures forall i :: 0 <= i < |ph| && ph[i].kind == PT_LOAD ==> ph[i].align <= r
    ensures r == 0 || exists i :: 0 <= i < |ph| && ph[i].kind == PT_LOAD && ph[i].align == r
  {
    if ph == [] then 0
    else
      var p, rest := ph[|ph| - 1], LoadAlign(ph[..|ph| - 1]);
      if p.kind == PT_LOAD then Max(rest, p.align) else rest
  }

  /** The end of the highest load segment. */
  function LoadEnd(ph: seq<Phdr>): (r: nat)
    ensures forall i :: 0 <= i < |ph| && ph[i].kind == PT_LOAD ==> ph[i].vaddr + ph[i].memsz <= r
    ensures r == 0 || exists i :: 0 <= i < |ph| && ph[i].kind == PT_LOAD && ph[i].vaddr + ph[i].memsz == r
  {
    if ph == [] then 0
    else
      var p, rest := ph[|ph| - 1], LoadEnd(ph[..|ph| - 1]);
      if p.kind == PT_LOAD then Max(rest, p.vaddr + p.memsz) else rest
  }

  /** Above every load segment, at the greatest alignment of one. */
  function FreshVa(ph: seq<Phdr>): nat { Align(LoadEnd(ph), LoadAlign(ph)) }

  /** A note that can be spared: the ABI tag, at the offset `abi` where there is one, is not in it. */
  predicate SpareNote(p: Phdr, abi: Option<nat>) {
    p.kind == PT_NOTE && (abi.Some? ==> !(p.offset <= abi.value < p.offset + p.filesz))
  }

  /** The entry `i` is the last `PT_GNU_SFRAME`, or there is none of those and it is the last note that can be
      spared. */
  predicate IsSpare(ph: seq<Phdr>, abi: Option<nat>, i: nat) {
    && i < |ph|
    && if exists j :: 0 <= j < |ph| && ph[j].kind == PT_GNU_SFRAME
       then ph[i].kind == PT_GNU_SFRAME && forall j :: i < j < |ph| ==> ph[j].kind != PT_GNU_SFRAME
       else SpareNote(ph[i], abi) && forall j :: i < j < |ph| ==> !SpareNote(ph[j], abi)
  }

  /** There is a load segment, and all are in front of the entry `i`. */
  predicate BehindLoads(ph: seq<Phdr>, i: nat) {
    && (exists j :: 0 <= j < |ph| && ph[j].kind == PT_LOAD)
    && forall j :: 0 <= j < |ph| && ph[j].kind == PT_LOAD ==> j < i
  }

  /** The program header to take: the last `PT_GNU_SFRAME`, or where there is none the last `PT_NOTE`
      without the ABI tag in it, and only behind every `PT_LOAD`. */
  function SpareSlot(ph: seq<Phdr>, abi: Option<nat>): (r: Result<nat>)
    ensures r.Ok? ==> IsSpare(ph, abi, r.value) && exists i :: 0 <= i < r.value && ph[i].kind == PT_LOAD
    ensures r.Err? ==> forall i :: 0 <= i < |ph| && IsSpare(ph, abi, i) ==> !BehindLoads(ph, i)
    ensures r.Ok? ==> r.value < |ph| && ph[r.value].kind in {PT_GNU_SFRAME, PT_NOTE}
    ensures r.Ok? ==> forall i :: 0 <= i < |ph| && ph[i].kind == PT_LOAD ==> i < r.value
  {
    var loads := LastIndex(ph, (p: Phdr) => p.kind == PT_LOAD);
    var sframe := LastIndex(ph, (p: Phdr) => p.kind == PT_GNU_SFRAME);
    var spare := if sframe.Some? then sframe
                 else LastIndex(ph, (p: Phdr) => SpareNote(p, abi));
    if loads.None? || spare.None? || spare.value <= loads.value then Err else Ok(spare.value)
  }

  /** `append`: the file padded to the alignment, then the data. */
  function Appended(b: seq<byte>, data: seq<byte>, align: nat): (r: seq<byte>)
    ensures |r| == Align(|b|, align) + |data|
    ensures r[..|b|] == b && r[Align(|b|, align)..] == data && forall k :: |b| <= k < Align(|b|, align) ==> r[k] == 0
  {
    b + Zeros(Align(|b|, align) - |b|) + data
  }

  function NewLoad(ph: seq<Phdr>, size: nat, fileEnd: nat): Phdr {
    var va, al := FreshVa(ph), LoadAlign(ph);
    Phdr(PT_LOAD, 4, Align(fileEnd, al), va, va, size, size, al)
  }

  /** The offset of the section with the ABI tag, where there is one. */
  function AbiTag(b: seq<byte>, l: Layout): Result<Option<nat>>
    requires TablesIn(b, l) && l.shstrndx < l.shnum
  {
    var found :- FindSection(b, l, ".note.ABI-tag");
    Ok(if found.None? then None else Some(Shdrs(b, l)[found.value].offset))
  }

  /** `new_load_segment`: the image with `data` mapped at a fresh address, and the slot it took. */
  function NewLoadSegment(b: seq<byte>, l: Layout, data: seq<byte>): (r: Result<(seq<byte>, nat)>)
    requires TablesIn(b, l) && l.shstrndx < l.shnum
  {
    var ph := Phdrs(b, l);
    var abi :- AbiTag(b, l);
    var slot :- SpareSlot(ph, abi);
    var b' :- PutPhdr(Appended(b, data, LoadAlign(ph)), l, slot, NewLoad(ph, |data|, |b|));
    Ok((b', slot))
  }

  /** Load segments ascend and do not overlap. */
  predicate LoadsOrdered(ph: seq<Phdr>) {
    forall i, j :: 0 <= i < j < |ph| && ph[i].kind == PT_LOAD && ph[j].kind == PT_LOAD ==>
                     ph[i].vaddr + ph[i].memsz <= ph[j].vaddr
  }

  /** The new segment: one program header changed, a spare one; the data mapped where the header says, behind
      the file and zeros up to the alignment; its address the first multiple of the alignment above every load
      segment, congruent to its file offset; and the load segments still in order. */
  lemma NewSegmentFits(b: seq<byte>, l: Layout, data: seq<byte>)
    requires TablesIn(b, l) && l.shstrndx < l.shnum && NewLoadSegment(b, l, data).Ok?
    ensures var ph := Phdrs(b, l);
            var (b', slot) := NewLoadSegment(b, l, data).value;
            var p := NewLoad(ph, |data|, |b|);
            && TablesIn(b', l) && slot < l.phnum && Phdrs(b', l) == ph[slot := p]
            && AbiTag(b, l).Ok? && IsSpare(ph, AbiTag(b, l).value, slot) && BehindLoads(ph, slot)
            && ph[slot].kind in {PT_GNU_SFRAME, PT_NOTE}
            && p.kind == PT_LOAD && p.flags == 4 && p.paddr == p.vaddr && p.filesz == p.memsz == |data|
            && |b'| == p.offset + |data| && p.offset >= |b| && b'[p.offset..] == data
            && (forall k :: |b| <= k < p.offset ==> b'[k] == 0)
            && (p.align > 0 ==> p.offset < |b| + p.align)
            && (p.align > 0 ==> exists i :: 0 <= i < |ph| && ph[i].kind == PT_LOAD && p.vaddr < ph[i].vaddr + ph[i].memsz + p.align)
            && (forall k :: 0 <= k < |b| && !(l.phoff <= k < PhSlot(l, l.phnum)) ==> b'[k] == b[k])
            && (p.align > 0 ==> p.vaddr % p.align == p.offset % p.align)
            && (forall i :: 0 <= i < |ph| && ph[i].kind == PT_LOAD ==> ph[i].vaddr + ph[i].memsz <= p.vaddr && ph[i].align <= p.align)
            && (LoadsOrdered(ph) ==> LoadsOrdered(Phdrs(b', l)))
  {
    hide PhdrOf, ShdrOf, AbiTag, Phdrs, PutPhdr, SpareSlot, IsSpare, FreshVa, Appended, PhSlot, LoadsOrdered;
    var ph := Phdrs(b, l);
    var (b', slot) := NewLoadSegment(b, l, data).value;
    var p := NewLoad(ph, |data|, |b|);
    var mid := Appended(b, data, LoadAlign(ph));
    assert forall k :: 0 <= k < |b| ==> mid[k] == mid[..|b|][k] == b[k];
    PhdrsSame(b, mid, l);
    PutPhdrReads(mid, l, slot, p);
    SuffixSame(mid, b', p.offset);
    FreshSegment(ph, slot, p);
    if p.align > 0 { LowestVa(ph); }
  }

  /** The address is not higher than it has to be. */
  lemma LowestVa(ph: seq<Phdr>)
    requires LoadAlign(ph) > 0
    ensures exists i :: 0 <= i < |ph| && ph[i].kind == PT_LOAD && FreshVa(ph) < ph[i].vaddr + ph[i].memsz + LoadAlign(ph)
  {
    hide LoadEnd, LoadAlign, Align;
    var j :| 0 <= j < |ph| && ph[j].kind == PT_LOAD && ph[j].align == LoadAlign(ph);
    if LoadEnd(ph) != 0 {
      var i :| 0 <= i < |ph| && ph[i].kind == PT_LOAD && ph[i].vaddr + ph[i].memsz == LoadEnd(ph);
    } else {
      assert FreshVa(ph) < LoadAlign(ph);
    }
  }

  lemma SuffixSame(b: seq<byte>, b': seq<byte>, from: nat)
    requires |b| == |b'| && from <= |b| && forall k :: from <= k < |b| ==> b'[k] == b[k]
    ensures b'[from..] == b[from..]
  {
  }

  /** The new segment among the others. */
  lemma FreshSegment(ph: seq<Phdr>, slot: nat, p: Phdr)
    requires slot < |ph| && p.kind == PT_LOAD && p.vaddr == FreshVa(ph) && p.align == LoadAlign(ph)
    requires p.align > 0 ==> p.offset % p.align == 0
    requires forall i :: 0 <= i < |ph| && ph[i].kind == PT_LOAD ==> i < slot
    ensures p.align > 0 ==> p.vaddr % p.align == p.offset % p.align
    ensures forall i :: 0 <= i < |ph| && ph[i].kind == PT_LOAD ==> ph[i].vaddr + ph[i].memsz <= p.vaddr && ph[i].align <= p.align
    ensures LoadsOrdered(ph) ==> LoadsOrdered(ph[slot := p])
  {
    hide LoadEnd, LoadAlign, Align;
  }
}
