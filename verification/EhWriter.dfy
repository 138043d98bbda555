/** `write_eh`, which prints a record list over the unwind tables of an image or, when that has outgrown them,
    into a new load segment; and what the rest of the image keeps. */
module EhWriter {
  import opened Bytes
  import opened Sorting
  import opened EhFrame
  import opened EhFrameHdr
  import opened ElfImage

  // --- the image before and after, as functions of its bytes ---------------

  /** The section `name` must be there: subscripting `None` raises. */
  function Needed(b: seq<byte>, l: Layout, name: string): (r: Result<nat>)
    requires TablesIn(b, l) && l.shstrndx < l.shnum
    ensures r.Ok? ==> r.value < l.shnum
  {
    var found :- FindSection(b, l, name);
    if found.None? then Err else Ok(found.value)
  }

  function BytesOf(b: seq<byte>, s: Shdr): seq<byte> {
    Slice(b, s.offset, s.offset + s.size)
  }

  /** What `read_eh` reads from an image. */
  function ReadImage(b: seq<byte>, l: Layout): Result<seq<Record>>
    requires TablesIn(b, l) && l.shstrndx < l.shnum
  {
    var i :- Needed(b, l, ".eh_frame");
    var s := Shdrs(b, l)[i];
    Read(BytesOf(b, s), s.addr)
  }

  /** A `PT_GNU_EH_FRAME` made to name the header section `h`. */
  function Pointed(p: Phdr, h: Shdr): Phdr {
    p.(offset := h.offset, vaddr := h.addr, paddr := h.addr, filesz := h.size, memsz := h.size)
  }

  function PointedIf(p: Phdr, h: Shdr): Phdr {
    if p.kind == PT_GNU_EH_FRAME then Pointed(p, h) else p
  }

  function PointedAll(ph: seq<Phdr>, h: Shdr): (r: seq<Phdr>)
    ensures |r| == |ph| && forall j :: 0 <= j < |ph| ==> r[j] == PointedIf(ph[j], h)
  {
    seq(|ph|, j requires 0 <= j < |ph| => PointedIf(ph[j], h))
  }

  /** Every `PT_GNU_EH_FRAME` from entry `i` on made to name `h`. */
  function PointFrom(b: seq<byte>, l: Layout, h: Shdr, i: nat): (r: Result<seq<byte>>)
    requires TablesIn(b, l)
    ensures r.Ok? ==> |r.value| == |b|
    decreases l.phnum - i
  {
    if i >= l.phnum then Ok(b)
    else if PhdrAt(b, l, i).kind == PT_GNU_EH_FRAME then
      var b' :- PutPhdr(b, l, i, Pointed(PhdrAt(b, l, i), h));
      PointFrom(b', l, h, i + 1)
    else PointFrom(b, l, h, i + 1)
  }

  /** The end of `write_eh`, common to its two branches: both section headers, then the program headers. */
  function Finish(b: seq<byte>, l: Layout, ei: nat, e: Shdr, hi: nat, h: Shdr): (r: Result<seq<byte>>)
    requires TablesIn(b, l) && ei < l.shnum && hi < l.shnum
    ensures r.Ok? ==> |r.value| == |b|
  {
    var b1 :- PutShdr(b, l, ei, e);
    var b2 :- PutShdr(b1, l, hi, h);
    PointFrom(b2, l, h, 0)
  }

  /** Both tables zeroed. */
  function Cleared(b: seq<byte>, e: Shdr, h: Shdr): (r: seq<byte>)
    requires e.offset + e.size <= |b| && h.offset + h.size <= |b|
    ensures |r| == |b|
  {
    Splice(Splice(b, e.offset, Zeros(e.size)), h.offset, Zeros(h.size))
  }

  /** The records and the search table in their own sections. */
  function InPlace(b: seq<byte>, l: Layout, ei: nat, hi: nat, newEh: seq<byte>, newHdr: seq<byte>): Result<seq<byte>>
    requires TablesIn(b, l) && ei < l.shnum && hi < l.shnum
    requires var e, h := ShdrAt(b, l, ei), ShdrAt(b, l, hi);
             e.offset + e.size <= |b| && h.offset + h.size <= |b| && |newEh| <= e.size && |newHdr| <= h.size
  {
    var e, h := ShdrAt(b, l, ei), ShdrAt(b, l, hi);
    var b' := Splice(Splice(Cleared(b, e, h), e.offset, newEh), h.offset, newHdr);
    Finish(b', l, ei, e.(size := |newEh|), hi, h.(size := |newHdr|))
  }

  /** `bytes.ljust(room, b"\0")`. */
  function Ljust(s: seq<byte>, room: nat): (r: seq<byte>)
    ensures |s| <= |r| && room <= |r| && r[..|s|] == s && forall k :: |s| <= k < |r| ==> r[k] == 0
  {
    if |s| < room then s + Zeros(room - |s|) else s
  }

  /** Both tables into a new segment. `hdrSize`: the size of the header printed for the old address, from which
      its room in the segment is taken. */
  function Moved(b: seq<byte>, l: Layout, ei: nat, hi: nat, rs: seq<Record>, hdrSize: nat): Result<seq<byte>>
    requires TablesIn(b, l) && ei < l.shnum && hi < l.shnum && l.shstrndx < l.shnum
    requires var e, h := ShdrAt(b, l, ei), ShdrAt(b, l, hi);
             e.offset + e.size <= |b| && h.offset + h.size <= |b|
  {
    var e, h := ShdrAt(b, l, ei), ShdrAt(b, l, hi);
    var room, va := Align(hdrSize, 8), FreshVa(Phdrs(b, l));
    var newEh :- Serialize(rs, va + room);
    var newHdr :- SerializeHdr(Table(rs, va + room), va, va + room);
    var (b', slot) :- NewLoadSegment(b, l, Ljust(newHdr, room) + newEh);
    NewSegmentFits(b, l, Ljust(newHdr, room) + newEh);
    var p := PhdrAt(b', l, slot);
    if p.vaddr != va then Err
    else Finish(Cleared(b', e, h), l, ei, e.(addr := va + room, offset := p.offset + room, size := |newEh|),
                hi, h.(addr := va, offset := p.offset, size := |newHdr|))
  }

  /** Both tables have room where they are. */
  predicate TablesFit(rs: seq<Record>, e: Shdr, h: Shdr) {
    SerializedSize(rs) <= e.size && HdrSize(|Fdes(rs)|) <= h.size
  }

  /** The new load segment of the moved branch: the header, padded to a multiple of eight, and the records. */
  function Segment(ph: seq<Phdr>, fileEnd: nat, rs: seq<Record>): Phdr {
    NewLoad(ph, Align(HdrSize(|Fdes(rs)|), 8) + SerializedSize(rs), fileEnd)
  }

  /** The header of the section of the records after the write. */
  function EhAfter(ph: seq<Phdr>, fileEnd: nat, e: Shdr, h: Shdr, rs: seq<Record>): Shdr {
    var (p, room) := (Segment(ph, fileEnd, rs), Align(HdrSize(|Fdes(rs)|), 8));
    if TablesFit(rs, e, h) then e.(size := SerializedSize(rs))
    else e.(addr := p.vaddr + room, offset := p.offset + room, size := SerializedSize(rs))
  }

  /** The header of the section of the search table after the write. */
  function HdrAfter(ph: seq<Phdr>, fileEnd: nat, e: Shdr, h: Shdr, rs: seq<Record>): Shdr {
    var p := Segment(ph, fileEnd, rs);
    if TablesFit(rs, e, h) then h.(size := HdrSize(|Fdes(rs)|))
    else h.(addr := p.vaddr, offset := p.offset, size := HdrSize(|Fdes(rs)|))
  }

  /** The section `name`, where there is one, lies in the file. */
  predicate InFile(b: seq<byte>, l: Layout, name: string)
    requires TablesIn(b, l) && l.shstrndx < l.shnum
  {
    Needed(b, l, name).Ok? ==> var s := ShdrAt(b, l, Needed(b, l, name).value); s.offset + s.size <= |b|
  }

  /** The two unwind sections lie in the file. */
  predicate UnwindInFile(b: seq<byte>, l: Layout)
    requires TablesIn(b, l) && l.shstrndx < l.shnum
  {
    InFile(b, l, ".eh_frame") && InFile(b, l, ".eh_frame_hdr")
  }

  /** The tables the branches of `write_eh` write: in place when both fit. */
  function WriteEh(b: seq<byte>, l: Layout, rs: seq<Record>): Result<seq<byte>>
    requires TablesIn(b, l) && l.shstrndx < l.shnum && UnwindInFile(b, l)
  {
    var ei :- Needed(b, l, ".eh_frame");
    var hi :- Needed(b, l, ".eh_frame_hdr");
    var e, h := ShdrAt(b, l, ei), ShdrAt(b, l, hi);
    var newEh :- Serialize(rs, e.addr);
    var newHdr :- SerializeHdr(Table(rs, e.addr), h.addr, e.addr);
    if |newEh| > e.size || |newHdr| > h.size then Moved(b, l, ei, hi, rs, |newHdr|)
    else InPlace(b, l, ei, hi, newEh, newHdr)
  }

  // --- what the common end does --------------------------------------------

  lemma {:induction false} PointFromReads(b: seq<byte>, l: Layout, h: Shdr, i: nat)
    requires TablesIn(b, l) && PointFrom(b, l, h, i).Ok? && i <= l.phnum
    ensures var b' := PointFrom(b, l, h, i).value;
            && TablesIn(b', l)
            && (forall k :: 0 <= k < |b| && !(l.phoff <= k < PhSlot(l, l.phnum)) ==> b'[k] == b[k])
            && (forall j :: 0 <= j < l.phnum ==>
                  Phdrs(b', l)[j] == if i <= j then PointedIf(Phdrs(b, l)[j], h) else Phdrs(b, l)[j])
    decreases l.phnum - i
  {
    hide PhdrOf, ShdrOf, PutPhdr;
    if i < l.phnum {
      if PhdrAt(b, l, i).kind == PT_GNU_EH_FRAME {
        var p := Pointed(PhdrAt(b, l, i), h);
        PutPhdrReads(b, l, i, p);
        PointFromReads(PutPhdr(b, l, i, p).value, l, h, i + 1);
      } else {
        PointFromReads(b, l, h, i + 1);
      }
    }
  }

  /** A stretch of the file. */
  datatype Span = Span(lo: nat, hi: nat) {
    predicate Has(k: int) { lo <= k < hi }

    predicate ApartFrom(o: Span) { hi <= o.lo || o.hi <= lo }
  }

  function SpanOf(s: Shdr): Span { Span(s.offset, s.offset + s.size) }

  function PhSpan(l: Layout): Span { Span(l.phoff, PhSlot(l, l.phnum)) }

  function ShSpan(l: Layout): Span { Span(l.shoff, ShSlot(l, l.shnum)) }

  predicate InTables(l: Layout, k: int) { PhSpan(l).Has(k) || ShSpan(l).Has(k) }

  lemma FinishReads(b: seq<byte>, l: Layout, ei: nat, e: Shdr, hi: nat, h: Shdr)
    requires TablesIn(b, l) && ei < l.shnum && hi < l.shnum && PhSpan(l).ApartFrom(ShSpan(l))
    requires Finish(b, l, ei, e, hi, h).Ok?
    ensures var b' := Finish(b, l, ei, e, hi, h).value;
            && TablesIn(b', l)
            && (forall k :: 0 <= k < |b| && !InTables(l, k) ==> b'[k] == b[k])
            && Shdrs(b', l) == Shdrs(b, l)[ei := e][hi := h]
            && Phdrs(b', l) == PointedAll(Phdrs(b, l), h)
  {
    hide PhdrOf, ShdrOf, PutPhdr, PutShdr, PointFrom, Phdrs, Shdrs;
    PutShdrReads(b, l, ei, e);
    var b1 := PutShdr(b, l, ei, e).value;
    PutShdrReads(b1, l, hi, h);
    var b2 := PutShdr(b1, l, hi, h).value;
    PhdrsSame(b, b1, l);
    PhdrsSame(b1, b2, l);
    PointFromReads(b2, l, h, 0);
    ShdrsSame(b2, PointFrom(b2, l, h, 0).value, l);
  }

  // --- the rewritten image -------------------------------------------------

  /** The four stretches the writer writes to are apart from each other and in the file. */
  predicate WritesApart(b: seq<byte>, l: Layout, e: Shdr, h: Shdr) {
    && TablesIn(b, l) && SpanOf(e).hi <= |b| && SpanOf(h).hi <= |b|
    && PhSpan(l).ApartFrom(ShSpan(l)) && SpanOf(e).ApartFrom(SpanOf(h))
    && SpanOf(e).ApartFrom(PhSpan(l)) && SpanOf(e).ApartFrom(ShSpan(l))
    && SpanOf(h).ApartFrom(PhSpan(l)) && SpanOf(h).ApartFrom(ShSpan(l))
  }

  /** A stretch the writer only reads: in the file, apart from what it writes. */
  predicate Untouched(b: seq<byte>, l: Layout, e: Shdr, h: Shdr, s: Span) {
    && s.lo <= s.hi <= |b|
    && s.ApartFrom(PhSpan(l)) && s.ApartFrom(ShSpan(l)) && s.ApartFrom(SpanOf(e)) && s.ApartFrom(SpanOf(h))
  }

  /** Outside the header tables and the two unwind tables. */
  predicate Elsewhere(l: Layout, e: Shdr, h: Shdr, k: int) {
    !PhSpan(l).Has(k) && !ShSpan(l).Has(k) && !SpanOf(e).Has(k) && !SpanOf(h).Has(k)
  }

  /** Every byte of the old file outside the four stretches is as it was. */
  ghost predicate BytesKept(b: seq<byte>, b': seq<byte>, l: Layout, e: Shdr, h: Shdr) {
    |b| <= |b'| && forall k :: 0 <= k < |b| && Elsewhere(l, e, h, k) ==> b'[k] == b[k]
  }

  /** The bytes the section headers `e` and `h` name are the two tables printed for their addresses. */
  predicate TablesPrinted(b: seq<byte>, e: Shdr, h: Shdr, rs: seq<Record>) {
    && Serialize(rs, e.addr) == Ok(BytesOf(b, e))
    && SerializeHdr(Table(rs, e.addr), h.addr, e.addr) == Ok(BytesOf(b, h))
  }

  /** Nothing is left of the old tables where the new ones are not. */
  ghost predicate OldTablesCleared(b': seq<byte>, e: Shdr, h: Shdr, e': Shdr, h': Shdr) {
    forall k :: 0 <= k < |b'| && (SpanOf(e).Has(k) || SpanOf(h).Has(k)) && !SpanOf(e').Has(k) && !SpanOf(h').Has(k) ==> b'[k] == 0
  }

  /** The segment `p` loads the section `s` at the address the section header gives. */
  predicate Maps(p: Phdr, s: Shdr) {
    && p.kind == PT_LOAD && p.offset <= s.offset && s.offset + s.size <= p.offset + p.filesz
    && s.addr - p.vaddr == s.offset - p.offset
  }

  /** Both tables are at their old addresses and offsets, and the program headers are as they were but that
      those of the unwind header name the header section. */
  predicate InOldPlace(ph: seq<Phdr>, ph': seq<Phdr>, e: Shdr, h: Shdr, e': Shdr, h': Shdr) {
    && e'.addr == e.addr && e'.offset == e.offset && h'.addr == h.addr && h'.offset == h.offset
    && ph' == PointedAll(ph, h')
  }

  /** Besides that, the spare entry `slot` is now a load segment, and it maps both tables. */
  predicate InNewSegment(ph: seq<Phdr>, ph': seq<Phdr>, e': Shdr, h': Shdr, slot: nat) {
    && slot < |ph| && |ph'| == |ph| && ph[slot].kind in {PT_GNU_SFRAME, PT_NOTE}
    && Maps(ph'[slot], e') && Maps(ph'[slot], h')
    && ph' == PointedAll(ph, h')[slot := ph'[slot]]
  }

  /** The new segment of `InNewSegment` is `p`. */
  ghost predicate InSegment(ph: seq<Phdr>, ph': seq<Phdr>, e': Shdr, h': Shdr, p: Phdr) {
    exists slot: nat :: InNewSegment(ph, ph', e', h', slot) && ph'[slot] == p
  }

  /** The program headers of an image whose two tables were `e` and `h` and are now `e'` and `h'`. */
  ghost predicate SegmentsPointed(ph: seq<Phdr>, ph': seq<Phdr>, e: Shdr, h: Shdr, e': Shdr, h': Shdr) {
    && (InOldPlace(ph, ph', e, h, e', h') || exists slot :: InNewSegment(ph, ph', e', h', slot))
    && (LoadsOrdered(ph) ==> LoadsOrdered(ph'))
  }

  /** So every program header but a spare one is as it was, or names the header section if it is one of the
      unwind header; the load segments above all. */
  lemma SegmentsKept(ph: seq<Phdr>, ph': seq<Phdr>, e: Shdr, h: Shdr, e': Shdr, h': Shdr, j: nat)
    requires SegmentsPointed(ph, ph', e, h, e', h') && j < |ph|
    ensures |ph'| == |ph|
    ensures ph[j].kind == PT_GNU_EH_FRAME ==>
              && ph'[j].kind == ph[j].kind && ph'[j].flags == ph[j].flags && ph'[j].align == ph[j].align
              && ph'[j].offset == h'.offset && ph'[j].vaddr == ph'[j].paddr == h'.addr && ph'[j].filesz == ph'[j].memsz == h'.size
    ensures ph[j].kind !in {PT_GNU_EH_FRAME, PT_GNU_SFRAME, PT_NOTE} ==> ph'[j] == ph[j]
    ensures ph'[j].kind == PT_GNU_EH_FRAME ==> ph[j].kind == PT_GNU_EH_FRAME
  {
  }

  /** What either branch leaves. */
  ghost predicate Rewritten(b: seq<byte>, b': seq<byte>, l: Layout, ei: nat, hi: nat, e': Shdr, h': Shdr, rs: seq<Record>)
    requires TablesIn(b, l) && ei < l.shnum && hi < l.shnum
  {
    && TablesIn(b', l)
    && BytesKept(b, b', l, ShdrAt(b, l, ei), ShdrAt(b, l, hi))
    && Shdrs(b', l) == Shdrs(b, l)[ei := e'][hi := h']
    && e'.name == ShdrAt(b, l, ei).name && h'.name == ShdrAt(b, l, hi).name
    && SegmentsPointed(Phdrs(b, l), Phdrs(b', l), ShdrAt(b, l, ei), ShdrAt(b, l, hi), e', h')
    && TablesPrinted(b', e', h', rs)
    && OldTablesCleared(b', ShdrAt(b, l, ei), ShdrAt(b, l, hi), e', h')
  }

  lemma SpliceAway(b: seq<byte>, off: nat, d: seq<byte>, lo: nat, hi: nat)
    requires off + |d| <= |b| && hi <= |b| && Span(off, off + |d|).ApartFrom(Span(lo, hi))
    ensures Same(b, Splice(b, off, d), lo, hi)
  {
  }

  lemma ZeroedAt(b: seq<byte>, off: nat, n: nat, k: nat)
    requires off + n <= |b| && off <= k < off + n
    ensures Splice(b, off, Zeros(n))[k] == 0
  {
    var r := Splice(b, off, Zeros(n));
    assert r[k] == r[off..off + n][k - off];
  }

  lemma ClearedIsZero(b: seq<byte>, e: Shdr, h: Shdr)
    requires SpanOf(e).hi <= |b| && SpanOf(h).hi <= |b|
    ensures forall k :: 0 <= k < |b| && (SpanOf(e).Has(k) || SpanOf(h).Has(k)) ==> Cleared(b, e, h)[k] == 0
  {
    hide Splice, Zeros;
    forall k | 0 <= k < |b| && (SpanOf(e).Has(k) || SpanOf(h).Has(k)) ensures Cleared(b, e, h)[k] == 0 {
      if SpanOf(h).Has(k) {
        ZeroedAt(Splice(b, e.offset, Zeros(e.size)), h.offset, h.size, k);
      } else {
        ZeroedAt(b, e.offset, e.size, k);
      }
    }
  }

  /** Four writes inside the two unwind tables touch nothing else. */
  lemma InPlaceBytes(b: seq<byte>, e: Shdr, h: Shdr, newEh: seq<byte>, newHdr: seq<byte>)
    requires SpanOf(e).hi <= |b| && SpanOf(h).hi <= |b| && SpanOf(e).ApartFrom(SpanOf(h))
    requires |newEh| <= e.size && |newHdr| <= h.size
    ensures var m := Splice(Splice(Cleared(b, e, h), e.offset, newEh), h.offset, newHdr);
            && |m| == |b|
            && m[e.offset..e.offset + |newEh|] == newEh && m[h.offset..h.offset + |newHdr|] == newHdr
            && OldTablesCleared(m, e, h, e.(size := |newEh|), h.(size := |newHdr|))
            && forall k :: 0 <= k < |b| && !SpanOf(e).Has(k) && !SpanOf(h).Has(k) ==> m[k] == b[k]
  {
    var c := Cleared(b, e, h);
    ClearedIsZero(b, e, h);
    var m1 := Splice(c, e.offset, newEh);
    var m := Splice(m1, h.offset, newHdr);
    SpliceAway(m1, h.offset, newHdr, e.offset, e.offset + |newEh|);
    SameSlice(m1, m, e.offset, e.offset + |newEh|);
  }

  lemma PointedKeeps(ph: seq<Phdr>, e: Shdr, h: Shdr, e': Shdr, h': Shdr)
    requires e'.addr == e.addr && e'.offset == e.offset && h'.addr == h.addr && h'.offset == h.offset
    ensures SegmentsPointed(ph, PointedAll(ph, h'), e, h, e', h')
  {
  }

  /** From an image whose tables are written to one whose headers say so. */
  lemma FinishRewrites(b: seq<byte>, m: seq<byte>, l: Layout, ei: nat, e': Shdr, hi: nat, h': Shdr, rs: seq<Record>)
    requires TablesIn(b, l) && TablesIn(m, l) && ei < l.shnum && hi < l.shnum
    requires WritesApart(b, l, ShdrAt(b, l, ei), ShdrAt(b, l, hi))
    requires BytesKept(b, m, l, ShdrAt(b, l, ei), ShdrAt(b, l, hi))
    requires OldTablesCleared(m, ShdrAt(b, l, ei), ShdrAt(b, l, hi), e', h')
    requires Shdrs(m, l) == Shdrs(b, l)
    requires e'.name == ShdrAt(b, l, ei).name && h'.name == ShdrAt(b, l, hi).name
    requires SegmentsPointed(Phdrs(b, l), PointedAll(Phdrs(m, l), h'), ShdrAt(b, l, ei), ShdrAt(b, l, hi), e', h')
    requires TablesPrinted(m, e', h', rs)
    requires SpanOf(e').hi <= |m| && SpanOf(h').hi <= |m|
    requires SpanOf(e').ApartFrom(PhSpan(l)) && SpanOf(e').ApartFrom(ShSpan(l))
    requires SpanOf(h').ApartFrom(PhSpan(l)) && SpanOf(h').ApartFrom(ShSpan(l))
    requires Finish(m, l, ei, e', hi, h').Ok?
    ensures var b' := Finish(m, l, ei, e', hi, h').value;
            && Rewritten(b, b', l, ei, hi, e', h', rs) && |b'| == |m|
            && Phdrs(b', l) == PointedAll(Phdrs(m, l), h')
  {
    hide PhdrOf, ShdrOf, Serialize, SerializeHdr, Finish, Phdrs, Shdrs, SegmentsPointed, PointedAll, PhSlot, ShSlot, OldTablesCleared;
    FinishReads(m, l, ei, e', hi, h');
    var b' := Finish(m, l, ei, e', hi, h').value;
    SameSlice(m, b', e'.offset, SpanOf(e').hi);
    SameSlice(m, b', h'.offset, SpanOf(h').hi);
    ClearedStays(m, b', l, ShdrAt(b, l, ei), ShdrAt(b, l, hi), e', h');
  }

  lemma ClearedStays(m: seq<byte>, b': seq<byte>, l: Layout, e: Shdr, h: Shdr, e': Shdr, h': Shdr)
    requires |b'| == |m| && OldTablesCleared(m, e, h, e', h')
    requires SpanOf(e).ApartFrom(PhSpan(l)) && SpanOf(e).ApartFrom(ShSpan(l))
    requires SpanOf(h).ApartFrom(PhSpan(l)) && SpanOf(h).ApartFrom(ShSpan(l))
    requires forall k :: 0 <= k < |m| && !InTables(l, k) ==> b'[k] == m[k]
    ensures OldTablesCleared(b', e, h, e', h')
  {
    hide PhSlot, ShSlot;
  }

  lemma InPlaceRewrites(b: seq<byte>, l: Layout, ei: nat, hi: nat, rs: seq<Record>, e: Shdr, h: Shdr, newEh: seq<byte>, newHdr: seq<byte>)
    requires TablesIn(b, l) && ei < l.shnum && hi < l.shnum && e == ShdrAt(b, l, ei) && h == ShdrAt(b, l, hi)
    requires WritesApart(b, l, e, h) && |newEh| <= e.size && |newHdr| <= h.size
    requires Serialize(rs, e.addr) == Ok(newEh) && SerializeHdr(Table(rs, e.addr), h.addr, e.addr) == Ok(newHdr)
    requires InPlace(b, l, ei, hi, newEh, newHdr).Ok?
    ensures var (b', e', h') := (InPlace(b, l, ei, hi, newEh, newHdr).value, e.(size := |newEh|), h.(size := |newHdr|));
            && Rewritten(b, b', l, ei, hi, e', h', rs) && |b'| == |b|
            && InOldPlace(Phdrs(b, l), Phdrs(b', l), e, h, e', h')
  {
    hide PhdrOf, ShdrOf, Serialize, SerializeHdr, Finish, Cleared, Phdrs, Shdrs, Rewritten, PhSlot, ShSlot, PhdrAt,
      SegmentsPointed, OldTablesCleared, PointedAll;
    var e', h' := e.(size := |newEh|), h.(size := |newHdr|);
    InPlaceBytes(b, e, h, newEh, newHdr);
    var m := Splice(Splice(Cleared(b, e, h), e.offset, newEh), h.offset, newHdr);
    PhdrsSame(b, m, l);
    ShdrsSame(b, m, l);
    PointedKeeps(Phdrs(b, l), e, h, e', h');
    FinishRewrites(b, m, l, ei, e', hi, h', rs);
  }

  /** The length of the search table, hence the size of its section, does not depend on the address. */
  lemma TableLength(rs: seq<Record>, va: int)
    ensures |Table(rs, va)| == |Fdes(rs)|
  {
    TableMatches(rs, va, 0);
  }

  /** Clearing the old tables touches nothing behind the old file. */
  lemma ClearedKeeps(b1: seq<byte>, e: Shdr, h: Shdr, end: nat)
    requires SpanOf(e).hi <= end && SpanOf(h).hi <= end <= |b1|
    ensures var m := Cleared(b1, e, h);
            && |m| == |b1| && m[end..] == b1[end..]
            && (forall k :: 0 <= k < |b1| && (SpanOf(e).Has(k) || SpanOf(h).Has(k)) ==> m[k] == 0)
            && forall k :: 0 <= k < |b1| && !SpanOf(e).Has(k) && !SpanOf(h).Has(k) ==> m[k] == b1[k]
  {
    ClearedIsZero(b1, e, h);
  }

  /** The new block holds the header at its front and the records `room` behind it. */
  lemma BlockParts(m: seq<byte>, off: nat, newHdr: seq<byte>, newEh: seq<byte>, room: nat)
    requires |newHdr| <= room && |m| == off + room + |newEh| && m[off..] == Ljust(newHdr, room) + newEh
    ensures m[off..off + |newHdr|] == newHdr && m[off + room..off + room + |newEh|] == newEh
  {
    var data := m[off..];
    assert m[off..off + |newHdr|] == data[..|newHdr|];
    assert m[off + room..off + room + |newEh|] == data[room..];
  }

  /** The moved branch's image before its headers are updated. */
  lemma MovedBytes(b: seq<byte>, b1: seq<byte>, l: Layout, e: Shdr, h: Shdr, off: nat, newHdr: seq<byte>, newEh: seq<byte>, room: nat)
    requires WritesApart(b, l, e, h) && |newHdr| <= room && |b| <= off
    requires |b1| == off + room + |newEh| && b1[off..] == Ljust(newHdr, room) + newEh
    requires forall k :: 0 <= k < |b| && !PhSpan(l).Has(k) ==> b1[k] == b[k]
    ensures var m := Cleared(b1, e, h);
            && |m| == |b1| && BytesKept(b, m, l, e, h)
            && Same(b1, m, l.phoff, PhSlot(l, l.phnum)) && Same(b, m, l.shoff, ShSlot(l, l.shnum))
            && (forall e', h' :: OldTablesCleared(m, e, h, e', h'))
            && m[off..off + |newHdr|] == newHdr && m[off + room..off + room + |newEh|] == newEh
  {
    hide PhSlot, ShSlot, Cleared, Ljust;
    ClearedKeeps(b1, e, h, off);
    BlockParts(Cleared(b1, e, h), off, newHdr, newEh, room);
  }

  /** A spare entry made a load segment behind the others. */
  lemma SlotKeeps(ph: seq<Phdr>, slot: nat, p: Phdr, e: Shdr, h: Shdr, e': Shdr, h': Shdr)
    requires slot < |ph| && ph[slot].kind in {PT_GNU_SFRAME, PT_NOTE} && Maps(p, e') && Maps(p, h')
    requires LoadsOrdered(ph) ==> LoadsOrdered(ph[slot := p])
    ensures SegmentsPointed(ph, PointedAll(ph[slot := p], h'), e, h, e', h')
    ensures InNewSegment(ph, PointedAll(ph[slot := p], h'), e', h', slot) && PointedAll(ph[slot := p], h')[slot] == p
  {
    assert PointedAll(ph[slot := p], h') == PointedAll(ph, h')[slot := p];
    assert InNewSegment(ph, PointedAll(ph[slot := p], h'), e', h', slot);
  }

  /** The image before the headers are updated: both tables printed, in the block the segment maps. */
  lemma MovedReady(b: seq<byte>, b1: seq<byte>, l: Layout, rs: seq<Record>, e: Shdr, h: Shdr, p: Phdr, e': Shdr, h': Shdr)
    requires WritesApart(b, l, e, h) && |b| <= p.offset
    requires p.kind == PT_LOAD && h'.addr == p.vaddr && h'.offset == p.offset
    requires e'.addr == p.vaddr + Align(h'.size, 8) && e'.offset == p.offset + Align(h'.size, 8)
    requires Serialize(rs, e'.addr).Ok? && |Serialize(rs, e'.addr).value| == e'.size
    requires SerializeHdr(Table(rs, e'.addr), h'.addr, e'.addr).Ok? && |SerializeHdr(Table(rs, e'.addr), h'.addr, e'.addr).value| == h'.size
    requires p.filesz == Align(h'.size, 8) + e'.size && |b1| == p.offset + p.filesz
    requires b1[p.offset..] == Ljust(SerializeHdr(Table(rs, e'.addr), h'.addr, e'.addr).value, Align(h'.size, 8)) + Serialize(rs, e'.addr).value
    requires forall k :: 0 <= k < |b| && !PhSpan(l).Has(k) ==> b1[k] == b[k]
    ensures var m := Cleared(b1, e, h);
            && |m| == |b1| && BytesKept(b, m, l, e, h) && OldTablesCleared(m, e, h, e', h')
            && Same(b1, m, l.phoff, PhSlot(l, l.phnum)) && Same(b, m, l.shoff, ShSlot(l, l.shnum))
            && TablesPrinted(m, e', h', rs) && Maps(p, e') && Maps(p, h')
  {
    hide Serialize, SerializeHdr, Table, Cleared, PhSlot, ShSlot, Ljust, BytesKept, OldTablesCleared, Same;
    MovedBytes(b, b1, l, e, h, p.offset, SerializeHdr(Table(rs, e'.addr), h'.addr, e'.addr).value,
               Serialize(rs, e'.addr).value, Align(h'.size, 8));
  }

  /** The moved branch: both tables are printed for the addresses the new segment gives them. */
  lemma MovedRewrites(b: seq<byte>, l: Layout, ei: nat, hi: nat, rs: seq<Record>, e: Shdr, h: Shdr, hdrSize: nat)
    requires TablesIn(b, l) && ei < l.shnum && hi < l.shnum && l.shstrndx < l.shnum
    requires e == ShdrAt(b, l, ei) && h == ShdrAt(b, l, hi) && WritesApart(b, l, e, h)
    requires hdrSize == HdrSize(|Fdes(rs)|)
    requires Moved(b, l, ei, hi, rs, hdrSize).Ok?
    requires !TablesFit(rs, e, h)
    ensures var (b', ph) := (Moved(b, l, ei, hi, rs, hdrSize).value, Phdrs(b, l));
            var (p, e', h') := (Segment(ph, |b|, rs), EhAfter(ph, |b|, e, h, rs), HdrAfter(ph, |b|, e, h, rs));
            && Rewritten(b, b', l, ei, hi, e', h', rs) && |b'| == p.offset + p.filesz
            && InSegment(ph, Phdrs(b', l), e', h', p)
  {
    hide PhdrOf, ShdrOf, Serialize, SerializeHdr, Finish, Cleared, Phdrs, Shdrs, Rewritten, PhSlot, ShSlot, PhdrAt,
      NewLoadSegment, FreshVa, PointedAll, SegmentsPointed, InNewSegment, Table, Fdes, OldTablesCleared, LoadAlign, Ljust,
      TablesPrinted, BytesKept, Align, LoadsOrdered, IsSpare, BehindLoads, AbiTag, Maps;
    var room, va := Align(hdrSize, 8), FreshVa(Phdrs(b, l));
    TableLength(rs, va + room);
    var newEh := Serialize(rs, va + room).value;
    var newHdr := SerializeHdr(Table(rs, va + room), va, va + room).value;
    var data := Ljust(newHdr, room) + newEh;
    LjustSize(newHdr, room);
    NewSegmentFits(b, l, data);
    var (b1, slot) := NewLoadSegment(b, l, data).value;
    var p := PhdrAt(b1, l, slot);
    assert p == NewLoad(Phdrs(b, l), |data|, |b|);
    var m := Cleared(b1, e, h);
    var e', h' := EhAfter(Phdrs(b, l), |b|, e, h, rs), HdrAfter(Phdrs(b, l), |b|, e, h, rs);
    MovedReady(b, b1, l, rs, e, h, p, e', h');
    PhdrsSame(b1, m, l);
    ShdrsSame(b, m, l);
    SlotKeeps(Phdrs(b, l), slot, p, e, h, e', h');
    FinishRewrites(b, m, l, ei, e', hi, h', rs);
    assert InSegment(Phdrs(b, l), PointedAll(Phdrs(m, l), h'), e', h', p);
  }

  lemma LjustSize(s: seq<byte>, room: nat)
    requires |s| <= room
    ensures |Ljust(s, room)| == room
  {
  }

  // --- the main result -----------------------------------------------------

  /** An image whose two unwind tables, header tables, file header and section names lie in the file apart
      from each other. */
  predicate Regular(b: seq<byte>, l: Layout, ei: nat, hi: nat) {
    && TablesIn(b, l) && l.shstrndx < l.shnum && ei < l.shnum && hi < l.shnum
    && Needed(b, l, ".eh_frame") == Ok(ei) && Needed(b, l, ".eh_frame_hdr") == Ok(hi)
    && var e, h := ShdrAt(b, l, ei), ShdrAt(b, l, hi);
    && WritesApart(b, l, e, h)
    && Untouched(b, l, e, h, Span(0, 64))
    && Untouched(b, l, e, h, SpanOf(ShdrAt(b, l, l.shstrndx)))
  }

  /** Which branch it was, from the image: where the tables fit, and only there, they are where they were, the
      file has its length and no program header is taken; otherwise the new segment holds both. */
  ghost predicate BranchTaken(ph: seq<Phdr>, ph': seq<Phdr>, size: nat, size': nat, e: Shdr, h: Shdr, e': Shdr, h': Shdr, rs: seq<Record>) {
    var p := Segment(ph, size, rs);
    && (TablesFit(rs, e, h) <==> InOldPlace(ph, ph', e, h, e', h'))
    && (TablesFit(rs, e, h) <==> size' == size)
    && (!TablesFit(rs, e, h) ==> size' == p.offset + p.filesz && InSegment(ph, ph', e', h', p))
  }

  lemma WriteRewrites(b: seq<byte>, l: Layout, rs: seq<Record>, ei: nat, hi: nat) returns (e': Shdr, h': Shdr)
    requires Regular(b, l, ei, hi) && UnwindInFile(b, l) && WriteEh(b, l, rs).Ok?
    ensures Rewritten(b, WriteEh(b, l, rs).value, l, ei, hi, e', h', rs)
    ensures e' == EhAfter(Phdrs(b, l), |b|, ShdrAt(b, l, ei), ShdrAt(b, l, hi), rs)
    ensures h' == HdrAfter(Phdrs(b, l), |b|, ShdrAt(b, l, ei), ShdrAt(b, l, hi), rs)
    ensures var b' := WriteEh(b, l, rs).value;
            BranchTaken(Phdrs(b, l), Phdrs(b', l), |b|, |b'|, ShdrAt(b, l, ei), ShdrAt(b, l, hi), e', h', rs)
  {
    hide PhdrOf, ShdrOf, Serialize, SerializeHdr, Moved, InPlace, Rewritten, PhSlot, ShSlot, PhdrAt, Table, Fdes,
      Needed, Untouched, UnwindInFile, FreshVa, LoadAlign, InSegment, InOldPlace, Phdrs;
    var e, h := ShdrAt(b, l, ei), ShdrAt(b, l, hi);
    var newEh := Serialize(rs, e.addr).value;
    var newHdr := SerializeHdr(Table(rs, e.addr), h.addr, e.addr).value;
    TableLength(rs, e.addr);
    e', h' := EhAfter(Phdrs(b, l), |b|, e, h, rs), HdrAfter(Phdrs(b, l), |b|, e, h, rs);
    if TablesFit(rs, e, h) {
      InPlaceRewrites(b, l, ei, hi, rs, e, h, newEh, newHdr);
    } else {
      MovedRewrites(b, l, ei, hi, rs, e, h, |newHdr|);
      FarOff(Phdrs(b, l), Phdrs(WriteEh(b, l, rs).value, l), |b|, e, h, rs);
    }
  }

  /** The moved tables are behind the old file. */
  lemma FarOff(ph: seq<Phdr>, ph': seq<Phdr>, fileEnd: nat, e: Shdr, h: Shdr, rs: seq<Record>)
    requires !TablesFit(rs, e, h) && SpanOf(e).hi <= fileEnd && SpanOf(h).hi <= fileEnd
    ensures !InOldPlace(ph, ph', e, h, EhAfter(ph, fileEnd, e, h, rs), HdrAfter(ph, fileEnd, e, h, rs))
    ensures Segment(ph, fileEnd, rs).offset + Segment(ph, fileEnd, rs).filesz > fileEnd
  {
    hide Fdes, FreshVa, LoadAlign;
  }

  // --- when it succeeds ----------------------------------------------------

  const TWO64: int := 0x1_0000_0000_0000_0000

  lemma Pow256Of8()
    ensures Pow256(8) == TWO64 && Pow256(4) == TWO32
  {
    Pow256Of4();
    assert Pow256(5) == 256 * Pow256(4) && Pow256(6) == 256 * Pow256(5);
    assert Pow256(7) == 256 * Pow256(6) && Pow256(8) == 256 * Pow256(7);
  }

  /** A header that was read fits its fields. */
  lemma ShdrFits(b: seq<byte>, l: Layout, i: nat)
    requires TablesIn(b, l) && i < l.shnum
    ensures Fits(SHDR, ShdrFields(ShdrAt(b, l, i)))
  {
    hide Unpack, Pow256, PhSlot;
    HeaderSizes();
    Slots(l.shoff, l.shent, l.shnum, i);
    var v := Unpack(SHDR, b[ShSlot(l, i)..ShSlot(l, i) + 64]);
    assert ShdrFields(ShdrAt(b, l, i)) == v;
  }

  lemma PhdrFits(b: seq<byte>, l: Layout, i: nat)
    requires TablesIn(b, l) && i < l.phnum
    ensures Fits(PHDR, PhdrFields(PhdrAt(b, l, i)))
  {
    hide Unpack, Pow256, ShSlot;
    HeaderSizes();
    Slots(l.phoff, l.phent, l.phnum, i);
    var v := Unpack(PHDR, b[PhSlot(l, i)..PhSlot(l, i) + 56]);
    assert PhdrFields(PhdrAt(b, l, i)) == v;
  }

  /** A section header with other places fits exactly when those do. */
  lemma PlacedFits(s: Shdr, addr: nat, offset: nat, size: nat)
    requires Fits(SHDR, ShdrFields(s))
    ensures Fits(SHDR, ShdrFields(s.(addr := addr, offset := offset, size := size))) <==>
            addr < TWO64 && offset < TWO64 && size < TWO64
  {
    hide Pow256;
    Pow256Of8();
    var (v, v') := (ShdrFields(s), ShdrFields(s.(addr := addr, offset := offset, size := size)));
    assert forall k :: 0 <= k < |SHDR| && k !in {3, 4, 5} ==> v'[k] == v[k];
    assert v'[3] == addr && v'[4] == offset && v'[5] == size && SHDR[3] == SHDR[4] == SHDR[5] == 8;
  }

  lemma PointedFits(p: Phdr, h: Shdr)
    requires Fits(PHDR, PhdrFields(p)) && h.offset < TWO64 && h.addr < TWO64 && h.size < TWO64
    ensures Fits(PHDR, PhdrFields(Pointed(p, h)))
  {
    hide Pow256;
    Pow256Of8();
    var (v, v') := (PhdrFields(p), PhdrFields(Pointed(p, h)));
    assert v'[0] == v[0] && v'[1] == v[1] && v'[7] == v[7];
  }

  lemma {:induction false} PointFromSucceeds(b: seq<byte>, l: Layout, h: Shdr, i: nat)
    requires TablesIn(b, l) && h.offset < TWO64 && h.addr < TWO64 && h.size < TWO64
    ensures PointFrom(b, l, h, i).Ok?
    decreases l.phnum - i
  {
    hide PhdrOf, PhSlot, ShSlot, Fits, PhdrAt;
    if i < l.phnum {
      if PhdrAt(b, l, i).kind == PT_GNU_EH_FRAME {
        PhdrFits(b, l, i);
        PointedFits(PhdrAt(b, l, i), h);
        PutPhdrReads(b, l, i, Pointed(PhdrAt(b, l, i), h));
        PointFromSucceeds(PutPhdr(b, l, i, Pointed(PhdrAt(b, l, i), h)).value, l, h, i + 1);
      } else {
        PointFromSucceeds(b, l, h, i + 1);
      }
    }
  }

  /** The common end succeeds exactly when both section headers fit their fields. */
  lemma FinishSucceeds(b: seq<byte>, l: Layout, ei: nat, e: Shdr, hi: nat, h: Shdr)
    requires TablesIn(b, l) && ei < l.shnum && hi < l.shnum
    ensures Finish(b, l, ei, e, hi, h).Ok? <==> Fits(SHDR, ShdrFields(e)) && Fits(SHDR, ShdrFields(h))
  {
    hide ShdrOf, PhdrOf, PointFrom, PhSlot, ShSlot;
    if Fits(SHDR, ShdrFields(e)) && Fits(SHDR, ShdrFields(h)) {
      PlacedFits(h, h.addr, h.offset, h.size);
      hide Fits, Pow256;
      PutShdrReads(b, l, ei, e);
      var b1 := PutShdr(b, l, ei, e).value;
      PutShdrReads(b1, l, hi, h);
      PointFromSucceeds(PutShdr(b1, l, hi, h).value, l, h, 0);
    }
  }

  /** Both tables print, the records for `ehVa` and the header for `hdrVa`. */
  predicate Prints(rs: seq<Record>, ehVa: int, hdrVa: int) {
    Serialize(rs, ehVa).Ok? && SerializeHdr(Table(rs, ehVa), hdrVa, ehVa).Ok?
  }

  /** The tables can move: the name table can be searched for the ABI tag, there is a spare program header behind
      the load segments, both tables print at their new addresses, and these, the offsets and the size of the
      segment are numbers of 64 bits. */
  predicate CanMove(b: seq<byte>, l: Layout, e: Shdr, h: Shdr, rs: seq<Record>)
    requires TablesIn(b, l) && l.shstrndx < l.shnum
  {
    var ph := Phdrs(b, l);
    var (p, e', h') := (Segment(ph, |b|, rs), EhAfter(ph, |b|, e, h, rs), HdrAfter(ph, |b|, e, h, rs));
    && AbiTag(b, l).Ok? && SpareSlot(ph, AbiTag(b, l).value).Ok?
    && Prints(rs, e'.addr, h'.addr) && e'.addr < TWO64 && e'.offset < TWO64 && p.filesz < TWO64
  }

  lemma InPlaceSucceeds(b: seq<byte>, l: Layout, ei: nat, hi: nat, newEh: seq<byte>, newHdr: seq<byte>)
    requires TablesIn(b, l) && ei < l.shnum && hi < l.shnum
    requires var e, h := ShdrAt(b, l, ei), ShdrAt(b, l, hi);
             SpanOf(e).hi <= |b| && SpanOf(h).hi <= |b| && |newEh| <= e.size && |newHdr| <= h.size
    ensures InPlace(b, l, ei, hi, newEh, newHdr).Ok?
  {
    hide ShdrAt, Finish, Cleared, Splice, PhSlot, ShSlot;
    var e, h := ShdrAt(b, l, ei), ShdrAt(b, l, hi);
    ShdrFits(b, l, ei);
    ShdrFits(b, l, hi);
    PlacedFits(e, e.addr, e.offset, e.size);
    PlacedFits(h, h.addr, h.offset, h.size);
    PlacedFits(e, e.addr, e.offset, |newEh|);
    PlacedFits(h, h.addr, h.offset, |newHdr|);
    hide Fits;
    var m := Splice(Splice(Cleared(b, e, h), e.offset, newEh), h.offset, newHdr);
    FinishSucceeds(m, l, ei, e.(size := |newEh|), hi, h.(size := |newHdr|));
  }

  /** The new segment's header fits exactly when its place and its size do. */
  lemma SegmentFits(b: seq<byte>, l: Layout, size: nat)
    requires TablesIn(b, l)
    ensures var p := NewLoad(Phdrs(b, l), size, |b|);
            Fits(PHDR, PhdrFields(p)) <==> p.vaddr < TWO64 && p.offset < TWO64 && size < TWO64
  {
    hide Pow256, PhdrAt, LoadAlign, FreshVa, Align, PhSlot, ShSlot;
    Pow256Of8();
    AlignFits(b, l);
    var p := NewLoad(Phdrs(b, l), size, |b|);
    var v := PhdrFields(p);
    assert v[0] == 1 && v[1] == 4 && v[2] == p.offset && v[3] == p.vaddr && v[4] == p.vaddr && v[5] == size && v[6] == size;
  }

  lemma AlignFits(b: seq<byte>, l: Layout)
    requires TablesIn(b, l)
    ensures LoadAlign(Phdrs(b, l)) < TWO64
  {
    hide PhdrAt, LoadAlign, PhSlot, ShSlot, Pow256;
    var ph := Phdrs(b, l);
    if LoadAlign(ph) != 0 {
      var i :| 0 <= i < |ph| && ph[i].kind == PT_LOAD && ph[i].align == LoadAlign(ph);
      PhdrFits(b, l, i);
      Pow256Of8();
      assert PhdrFields(ph[i])[7] == ph[i].align && PHDR[7] == 8;
    }
  }

  lemma NewLoadSucceeds(b: seq<byte>, l: Layout, data: seq<byte>)
    requires TablesIn(b, l) && l.shstrndx < l.shnum
    ensures NewLoadSegment(b, l, data).Ok? <==>
            && AbiTag(b, l).Ok? && SpareSlot(Phdrs(b, l), AbiTag(b, l).value).Ok?
            && Fits(PHDR, PhdrFields(NewLoad(Phdrs(b, l), |data|, |b|)))
  {
    hide AbiTag, SpareSlot, Fits, PhSlot, ShSlot, Phdrs, LoadAlign, NewLoad;
  }

  lemma MovedSucceeds(b: seq<byte>, l: Layout, ei: nat, hi: nat, rs: seq<Record>, e: Shdr, h: Shdr)
    requires TablesIn(b, l) && ei < l.shnum && hi < l.shnum && l.shstrndx < l.shnum
    requires e == ShdrAt(b, l, ei) && h == ShdrAt(b, l, hi) && SpanOf(e).hi <= |b| && SpanOf(h).hi <= |b|
    requires !TablesFit(rs, e, h)
    ensures Moved(b, l, ei, hi, rs, HdrSize(|Fdes(rs)|)).Ok? <==> CanMove(b, l, e, h, rs)
  {
    hide PhdrOf, ShdrOf, Serialize, SerializeHdr, Finish, Cleared, Phdrs, Shdrs, PhSlot, ShSlot, PhdrAt, ShdrAt, AbiTag, SpareSlot,
      NewLoadSegment, FreshVa, Table, Fdes, LoadAlign, Ljust, Align, LoadsOrdered, Fits, IsSpare, BehindLoads;
    var room, va := Align(HdrSize(|Fdes(rs)|), 8), FreshVa(Phdrs(b, l));
    if Prints(rs, va + room, va) {
      TableLength(rs, va + room);
      var newEh := Serialize(rs, va + room).value;
      var newHdr := SerializeHdr(Table(rs, va + room), va, va + room).value;
      var data := Ljust(newHdr, room) + newEh;
      LjustSize(newHdr, room);
      NewLoadSucceeds(b, l, data);
      SegmentFits(b, l, |data|);
      if NewLoadSegment(b, l, data).Ok? {
        NewSegmentFits(b, l, data);
        var (b1, slot) := NewLoadSegment(b, l, data).value;
        ShdrFits(b, l, ei);
        ShdrFits(b, l, hi);
        PlacedFits(e, va + room, PhdrAt(b1, l, slot).offset + room, |newEh|);
        PlacedFits(h, va, PhdrAt(b1, l, slot).offset, |newHdr|);
        FinishSucceeds(Cleared(b1, e, h), l, ei, e.(addr := va + room, offset := PhdrAt(b1, l, slot).offset + room, size := |newEh|),
                       hi, h.(addr := va, offset := PhdrAt(b1, l, slot).offset, size := |newHdr|));
      }
    }
  }

  /** When `write_eh` succeeds on a regular image: both tables print at the addresses they have; and either they
      fit there, and nothing else is asked for, no spare program header above all, or they can move. */
  lemma WriteSucceeds(b: seq<byte>, l: Layout, rs: seq<Record>, ei: nat, hi: nat)
    requires Regular(b, l, ei, hi) && UnwindInFile(b, l)
    ensures var e, h := ShdrAt(b, l, ei), ShdrAt(b, l, hi);
            WriteEh(b, l, rs).Ok? <==> Prints(rs, e.addr, h.addr) && (TablesFit(rs, e, h) || CanMove(b, l, e, h, rs))
  {
    hide PhdrOf, ShdrOf, Serialize, SerializeHdr, Moved, InPlace, PhSlot, ShSlot, ShdrAt, Table, Fdes, Untouched, UnwindInFile,
      CanMove, Needed;
    var e, h := ShdrAt(b, l, ei), ShdrAt(b, l, hi);
    if Prints(rs, e.addr, h.addr) {
      TableLength(rs, e.addr);
      if TablesFit(rs, e, h) {
        InPlaceSucceeds(b, l, ei, hi, Serialize(rs, e.addr).value, SerializeHdr(Table(rs, e.addr), h.addr, e.addr).value);
      } else {
        MovedSucceeds(b, l, ei, hi, rs, e, h);
      }
    }
  }

  /** The names are not in a table that is written, so every lookup goes where it went. */
  lemma NamesApart(b: seq<byte>, l: Layout, ei: nat, hi: nat)
    requires Regular(b, l, ei, hi)
    ensures l.shstrndx != ei && l.shstrndx != hi && ei != hi
  {
    hide ShdrOf, PhdrOf, PhSlot, ShSlot, TablesIn;
    var shdrs, names := Shdrs(b, l), Names(b, Shdrs(b, l), l);
    assert |names| > 0;
    assert Ascii(".eh_frame") != Ascii(".eh_frame_hdr");
    FindDistinct(shdrs, names, Ascii(".eh_frame"), Ascii(".eh_frame_hdr"), 0, 0);
  }

  lemma StretchKept(b: seq<byte>, b': seq<byte>, l: Layout, e: Shdr, h: Shdr, s: Span)
    requires BytesKept(b, b', l, e, h) && Untouched(b, l, e, h, s)
    ensures b'[s.lo..s.hi] == b[s.lo..s.hi]
  {
    hide PhSlot, ShSlot;
  }

  lemma LookupsKept(b: seq<byte>, b': seq<byte>, l: Layout, ei: nat, hi: nat, e': Shdr, h': Shdr, rs: seq<Record>, name: string)
    requires Regular(b, l, ei, hi) && Rewritten(b, b', l, ei, hi, e', h', rs)
    ensures FindSection(b', l, name) == FindSection(b, l, name)
  {
    hide PhSlot, ShSlot, TablesPrinted, SegmentsPointed, Untouched, BytesKept, WritesApart, ShdrOf, PhdrOf, Needed;
    NamesApart(b, l, ei, hi);
    NamesKept(b, b', l, ei, hi, e', h', rs);
    FindSame(Shdrs(b, l), Shdrs(b', l), Names(b, Shdrs(b, l), l), Ascii(name), 0);
  }

  lemma NamesKept(b: seq<byte>, b': seq<byte>, l: Layout, ei: nat, hi: nat, e': Shdr, h': Shdr, rs: seq<Record>)
    requires Regular(b, l, ei, hi) && Rewritten(b, b', l, ei, hi, e', h', rs)
    requires l.shstrndx != ei && l.shstrndx != hi
    ensures Names(b', Shdrs(b', l), l) == Names(b, Shdrs(b, l), l)
  {
    hide PhSlot, ShSlot, TablesPrinted, SegmentsPointed, WritesApart, ShdrOf, PhdrOf, Needed;
    StretchKept(b, b', l, ShdrAt(b, l, ei), ShdrAt(b, l, hi), SpanOf(ShdrAt(b, l, l.shstrndx)));
  }

  /** The image `write_eh` leaves, in either branch: the records read back from it are those passed in; the
      header section holds their search table; both tables are where they were, with the file's length kept,
      exactly when they fit there, and otherwise in one new load segment behind it;
      `PT_GNU_EH_FRAME` names the header section and every other program header but the one taken for that
      segment is as it was; load segments in order stay in order; every lookup, every other section header and
      every byte elsewhere are unchanged. */
  lemma WrittenImage(b: seq<byte>, l: Layout, rs: seq<Record>, ei: nat, hi: nat)
    requires Regular(b, l, ei, hi) && UnwindInFile(b, l) && WriteEh(b, l, rs).Ok? && AllReadable(rs)
    ensures var b' := WriteEh(b, l, rs).value;
            var e, h := ShdrAt(b, l, ei), ShdrAt(b, l, hi);
            && TablesIn(b', l) && ParseHeader(b') == ParseHeader(b)
            && ReadImage(b', l) == Ok(rs)
            && TablesPrinted(b', ShdrAt(b', l, ei), ShdrAt(b', l, hi), rs)
            && SegmentsPointed(Phdrs(b, l), Phdrs(b', l), e, h, ShdrAt(b', l, ei), ShdrAt(b', l, hi))
            && (forall name :: FindSection(b', l, name) == FindSection(b, l, name))
            && (forall i :: 0 <= i < l.shnum && i != ei && i != hi ==> ShdrAt(b', l, i) == ShdrAt(b, l, i))
            && ShdrAt(b', l, ei) == EhAfter(Phdrs(b, l), |b|, e, h, rs) && ShdrAt(b', l, hi) == HdrAfter(Phdrs(b, l), |b|, e, h, rs)
            && BranchTaken(Phdrs(b, l), Phdrs(b', l), |b|, |b'|, e, h, ShdrAt(b', l, ei), ShdrAt(b', l, hi), rs)
            && BytesKept(b, b', l, e, h)
            && OldTablesCleared(b', e, h, ShdrAt(b', l, ei), ShdrAt(b', l, hi))
            && (forall s: Shdr :: Untouched(b, l, e, h, SpanOf(s)) ==> BytesOf(b', s) == BytesOf(b, s))
  {
    hide PhSlot, ShSlot, TablesPrinted, SegmentsPointed, Untouched, BytesKept, ShdrOf, PhdrOf, WriteEh,
      AllReadable, UnwindInFile, FindSection, OldTablesCleared, BranchTaken, EhAfter, HdrAfter;
    var e', h' := WriteRewrites(b, l, rs, ei, hi);
    var b' := WriteEh(b, l, rs).value;
    var e, h := ShdrAt(b, l, ei), ShdrAt(b, l, hi);
    NamesApart(b, l, ei, hi);
    assert forall i :: 0 <= i < l.shnum ==> ShdrAt(b', l, i) == Shdrs(b', l)[i] && ShdrAt(b, l, i) == Shdrs(b, l)[i];
    forall name ensures FindSection(b', l, name) == FindSection(b, l, name) {
      LookupsKept(b, b', l, ei, hi, e', h', rs, name);
    }
    HeaderKept(b, b', l, e, h);
    PrintedImage(b', l, ei, hi, rs);
    forall s: Shdr | Untouched(b, l, e, h, SpanOf(s)) ensures BytesOf(b', s) == BytesOf(b, s) {
      SectionKept(b, b', l, e, h, s);
    }
  }

  lemma SectionKept(b: seq<byte>, b': seq<byte>, l: Layout, e: Shdr, h: Shdr, s: Shdr)
    requires BytesKept(b, b', l, e, h) && Untouched(b, l, e, h, SpanOf(s))
    ensures BytesOf(b', s) == BytesOf(b, s)
  {
    hide PhSlot, ShSlot;
    StretchKept(b, b', l, e, h, SpanOf(s));
  }

  lemma HeaderKept(b: seq<byte>, b': seq<byte>, l: Layout, e: Shdr, h: Shdr)
    requires BytesKept(b, b', l, e, h) && Untouched(b, l, e, h, Span(0, 64))
    ensures ParseHeader(b') == ParseHeader(b)
  {
    hide PhSlot, ShSlot, FromLE;
    StretchKept(b, b', l, e, h, Span(0, 64));
    var s := b[0..64];
    assert s == b'[0..64];
    forall lo, hi | 0 <= lo <= hi <= 64 ensures b[lo..hi] == s[lo..hi] == b'[lo..hi] {
      SubSlice(b, 0, 64, lo, hi);
      SubSlice(b', 0, 64, lo, hi);
    }
    assert b[..4] == b[0..4] && b'[..4] == b'[0..4];
    assert b[4] == s[4] && b'[4] == s[4] && b[5] == s[5] && b'[5] == s[5];
  }

  lemma PrintedImage(b: seq<byte>, l: Layout, ei: nat, hi: nat, rs: seq<Record>)
    requires TablesIn(b, l) && l.shstrndx < l.shnum && ei < l.shnum && hi < l.shnum
    requires Needed(b, l, ".eh_frame") == Ok(ei)
    requires TablesPrinted(b, ShdrAt(b, l, ei), ShdrAt(b, l, hi), rs) && AllReadable(rs)
    ensures ReadImage(b, l) == Ok(rs)
  {
    hide Needed, ShdrOf, AllReadable, Read, Serialize;
    PrintedReadsBack(rs, ShdrAt(b, l, ei).addr);
  }

  // --- the file being edited -----------------------------------------------

  /** `Elf`: an image under edit. Where its header tables lie is read once, when it is loaded. */
  class Elf {
    var b: seq<byte>
    const l: Layout

    ghost predicate Valid()
      reads this
    {
      TablesIn(b, l) && l.shstrndx < l.shnum
    }

    constructor (image: seq<byte>, layout: Layout)
      requires ParseHeader(image) == Ok(layout)
      requires TablesIn(image, layout) && layout.shstrndx < layout.shnum
      ensures Valid() && b == image && l == layout
    {
      b := image;
      l := layout;
    }

    method WritePhdr(i: nat, p: Phdr) returns (r: Result<()>)
      requires Valid() && i < l.phnum
      modifies this
      ensures r.Ok? <==> PutPhdr(old(b), l, i, p).Ok?
      ensures Valid() && b == if r.Ok? then PutPhdr(old(b), l, i, p).value else old(b)
    {
      b :- PutPhdr(b, l, i, p);
      return Ok(());
    }

    method UpdateSection(i: nat, s: Shdr) returns (r: Result<()>)
      requires Valid() && i < l.shnum
      modifies this
      ensures r.Ok? <==> PutShdr(old(b), l, i, s).Ok?
      ensures Valid() && b == if r.Ok? then PutShdr(old(b), l, i, s).value else old(b)
    {
      b :- PutShdr(b, l, i, s);
      return Ok(());
    }

    method Append(data: seq<byte>, align: nat) returns (off: nat)
      requires Valid()
      modifies this
      ensures Valid() && b == Appended(old(b), data, align) && off == Align(|old(b)|, align)
    {
      off := Align(|b|, align);
      b := b + Zeros(off - |b|);
      b := b + data;
    }

    /** Returns the address, the offset and the slot taken. */
    method MapNew(data: seq<byte>) returns (r: Result<(nat, nat, nat)>)
      requires Valid()
      modifies this
      ensures Valid()
      ensures r.Ok? <==> NewLoadSegment(old(b), l, data).Ok?
      ensures r.Ok? ==> && (b, r.value.2) == NewLoadSegment(old(b), l, data).value
                        && r.value.0 == FreshVa(Phdrs(old(b), l)) && r.value.1 == Align(|old(b)|, LoadAlign(Phdrs(old(b), l)))
    {
      var ph := Phdrs(b, l);
      var found :- Section(b, l, ".note.ABI-tag");
      var slot :- SpareSlot(ph, if found.None? then None else Some(ShdrAt(b, l, found.value).offset));
      var al, va := LoadAlign(ph), FreshVa(ph);
      var off := Append(data, al);
      var _ :- WritePhdr(slot, Phdr(PT_LOAD, 4, off, va, va, |data|, |data|, al));
      return Ok((va, off, slot));
    }

    /** The last loop of `write_eh`: over the program headers as they were when it began. */
    method PointSegments(h: Shdr) returns (r: Result<()>)
      requires Valid()
      modifies this
      ensures Valid()
      ensures r.Ok? <==> PointFrom(old(b), l, h, 0).Ok?
      ensures r.Ok? ==> b == PointFrom(old(b), l, h, 0).value
    {
      hide PhdrOf, ShdrOf, PutPhdr, PhSlot, ShSlot;
      var ph := Phdrs(b, l);
      for i := 0 to l.phnum
        invariant Valid() && |Phdrs(b, l)| == |ph| == l.phnum
        invariant forall j :: i <= j < l.phnum ==> Phdrs(b, l)[j] == ph[j]
        invariant PointFrom(old(b), l, h, 0) == PointFrom(b, l, h, i)
      {
        if ph[i].kind == PT_GNU_EH_FRAME {
          ghost var before := b;
          var _ :- WritePhdr(i, Pointed(ph[i], h));
          PutPhdrReads(before, l, i, Pointed(ph[i], h));
        }
      }
      return Ok(());
    }

    method FinishTables(ei: nat, e: Shdr, hi: nat, h: Shdr) returns (r: Result<()>)
      requires Valid() && ei < l.shnum && hi < l.shnum
      modifies this
      ensures Valid()
      ensures r.Ok? <==> Finish(old(b), l, ei, e, hi, h).Ok?
      ensures r.Ok? ==> b == Finish(old(b), l, ei, e, hi, h).value
    {
      hide PutShdr, PointFrom, PhSlot, ShSlot;
      var _ :- UpdateSection(ei, e);
      var _ :- UpdateSection(hi, h);
      r := PointSegments(h);
    }

    /** `write_eh`. */
    method WriteRecords(rs: seq<Record>) returns (r: Result<()>)
      requires Valid() && UnwindInFile(b, l)
      modifies this
      ensures Valid()
      ensures r.Ok? <==> WriteEh(old(b), l, rs).Ok?
      ensures r.Ok? ==> b == WriteEh(old(b), l, rs).value
    {
      hide PhdrOf, ShdrOf, Serialize, SerializeHdr, Finish, PhSlot, ShSlot, Table, FindSection, NewLoadSegment,
        SortedBy, Sort, FreshVa, LoadAlign, LoadEnd, SpareSlot, TablesFit;
      var foundE :- Section(b, l, ".eh_frame");
      if foundE.None? { return Err; }
      var foundH :- Section(b, l, ".eh_frame_hdr");
      if foundH.None? { return Err; }
      var ei, hi := foundE.value, foundH.value;
      var e, h := ShdrAt(b, l, ei), ShdrAt(b, l, hi);
      var eh :- SerializeEh(rs, e.addr);
      var hdr :- SerializeEhHdr(eh.1, h.addr, e.addr);
      if |eh.0| > e.size || |hdr| > h.size {
        r := MoveTables(ei, e, hi, h, rs, |hdr|);
      } else {
        b := Cleared(b, e, h);
        b := Splice(b, e.offset, eh.0);
        b := Splice(b, h.offset, hdr);
        r := FinishTables(ei, e.(size := |eh.0|), hi, h.(size := |hdr|));
      }
    }

    method MoveTables(ei: nat, e: Shdr, hi: nat, h: Shdr, rs: seq<Record>, hdrSize: nat) returns (r: Result<()>)
      requires Valid() && ei < l.shnum && hi < l.shnum && e == ShdrAt(b, l, ei) && h == ShdrAt(b, l, hi)
      requires e.offset + e.size <= |b| && h.offset + h.size <= |b|
      modifies this
      ensures Valid()
      ensures r.Ok? <==> Moved(old(b), l, ei, hi, rs, hdrSize).Ok?
      ensures r.Ok? ==> b == Moved(old(b), l, ei, hi, rs, hdrSize).value
    {
      hide PhdrOf, ShdrOf, Serialize, SerializeHdr, Finish, PhSlot, ShSlot, Table, FindSection, NewLoadSegment,
        FreshVa, LoadAlign, LoadEnd, Cleared, Ljust;
      var room, va := Align(hdrSize, 8), FreshVa(Phdrs(b, l));
      var eh :- SerializeEh(rs, va + room);
      var hdr :- SerializeEhHdr(eh.1, va, va + room);
      ghost var was := b;
      var at :- MapNew(Ljust(hdr, room) + eh.0);
      NewSegmentFits(was, l, Ljust(hdr, room) + eh.0);
      assert at.0 == va;
      b := Cleared(b, e, h);
      r := FinishTables(ei, e.(addr := va + room, offset := at.1 + room, size := |eh.0|),
                        hi, h.(addr := va, offset := at.1, size := |hdr|));
    }
  }
}
