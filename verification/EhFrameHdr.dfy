/** `.eh_frame_hdr` (section 10.6.2 of LSB Core 5.0): the sorted search table over the FDEs, and what an
    unwinder that searches it finds. */
module EhFrameHdr {
  import opened Bytes
  import opened EhFrame
  import opened Sorting

  const HEAD: seq<byte> := [1, 0x1B, 0x03, 0x3B]

  function HdrSize(entries: nat): nat { 12 + 8 * entries }

  function Entries(sorted: seq<(int, int)>, hdrVa: int): (r: Result<seq<byte>>)
    ensures r.Ok? ==> |r.value| == 8 * |sorted|
  {
    if sorted == [] then Ok([])
    else
      var n := |sorted| - 1;
      var before :- Entries(sorted[..n], hdrVa);
      var (start, fde) := (sorted[n].0 - hdrVa, sorted[n].1 - hdrVa);
      if FitsI32(start) && FitsI32(fde) then Ok(before + LeI32(start) + LeI32(fde)) else Err
  }

  /** `_serialize_hdr`: a pcrel pointer, the count, the sorted datarel table. Its size depends on the
      number of FDEs only. */
  function SerializeHdr(table: seq<(int, int)>, hdrVa: int, ehVa: int): (r: Result<seq<byte>>)
    ensures r.Ok? ==> |r.value| == HdrSize(|table|)
  {
    var pointer := ehVa - (hdrVa + 4);
    if !FitsI32(pointer) || !FitsU32(|table|) then Err
    else
      var entries :- Entries(Sort(PairLe, table), hdrVa);
      Ok(HEAD + LeI32(pointer) + Le32(|table|) + entries)
  }

  method SerializeEhHdr(table: seq<(int, int)>, hdrVa: int, ehVa: int) returns (r: Result<seq<byte>>)
    ensures r == SerializeHdr(table, hdrVa, ehVa)
  {
    hide LeI32, Le32, Sort;
    var pointer := ehVa - (hdrVa + 4);
    if !FitsI32(pointer) || !FitsU32(|table|) { return Err; }
    var out := HEAD + LeI32(pointer) + Le32(|table|);
    ghost var head := out;
    var sorted := Sort(PairLe, table);
    for i := 0 to |sorted|
      invariant Entries(sorted[..i], hdrVa).Ok? && out == head + Entries(sorted[..i], hdrVa).value
    {
      var start, fde := sorted[i].0 - hdrVa, sorted[i].1 - hdrVa;
      ghost var done := sorted[..i + 1];
      assert done[..i] == sorted[..i];
      if !FitsI32(start) || !FitsI32(fde) {
        EntriesPrefix(sorted, i + 1, hdrVa);
        return Err;
      }
      assert head + Entries(sorted[..i], hdrVa).value + LeI32(start) + LeI32(fde)
          == head + (Entries(sorted[..i], hdrVa).value + LeI32(start) + LeI32(fde));
      out := out + LeI32(start) + LeI32(fde);
    }
    assert sorted[..|sorted|] == sorted;
    return Ok(out);
  }

  /** One entry that does not fit fails the whole table. */
  lemma {:induction false} EntriesPrefix(sorted: seq<(int, int)>, n: nat, hdrVa: int)
    requires n <= |sorted|
    ensures Entries(sorted, hdrVa).Ok? ==> Entries(sorted[..n], hdrVa).Ok?
    decreases |sorted|
  {
    if n == |sorted| {
      assert sorted[..n] == sorted;
    } else {
      var m := |sorted| - 1;
      EntriesPrefix(sorted[..m], n, hdrVa);
      assert sorted[..m][..n] == sorted[..n];
    }
  }

  // --- the reader's side ---------------------------------------------------

  /** A header this reader understands: version 1, the pointer pcrel sdata4, the count udata4, the table
      datarel sdata4. */
  predicate Understood(h: seq<byte>) {
    |h| >= 12 && h[0] == 1 && h[1] == 0x10 + 0x0B && h[2] == 0x03 && h[3] == 0x30 + 0x0B
  }

  function CountOf(h: seq<byte>): nat
    requires |h| >= 12
  {
    U32(h, 8)
  }

  function EhPointer(h: seq<byte>, hdrVa: int): int
    requires |h| >= 12
  {
    hdrVa + 4 + I32(h, 4)
  }

  function EntryAt(h: seq<byte>, hdrVa: int, i: nat): (int, int)
    requires HdrSize(i + 1) <= |h|
  {
    (hdrVa + I32(h, 12 + 8 * i), hdrVa + I32(h, 16 + 8 * i))
  }

  lemma LastEntryRead(h: seq<byte>, hdrVa: int, n: nat, before: seq<byte>, e: (int, int))
    requires FitsI32(e.0 - hdrVa) && FitsI32(e.1 - hdrVa) && |before| == 8 * n && HdrSize(n + 1) <= |h|
    requires h[12..HdrSize(n + 1)] == before + LeI32(e.0 - hdrVa) + LeI32(e.1 - hdrVa)
    ensures EntryAt(h, hdrVa, n) == e && h[12..HdrSize(n)] == before
  {
    var all := before + LeI32(e.0 - hdrVa) + LeI32(e.1 - hdrVa);
    assert all[8 * n..8 * n + 4] == LeI32(e.0 - hdrVa);
    assert all[8 * n + 4..8 * n + 8] == LeI32(e.1 - hdrVa);
    assert all[0..8 * n] == before;
    SubSlice(h, 12, HdrSize(n + 1), 8 * n, 8 * n + 4);
    SubSlice(h, 12, HdrSize(n + 1), 8 * n + 4, 8 * n + 8);
    SubSlice(h, 12, HdrSize(n + 1), 0, 8 * n);
    hide I32, LeI32;
    I32OfLeI32(h, 12 + 8 * n, e.0 - hdrVa);
    I32OfLeI32(h, 16 + 8 * n, e.1 - hdrVa);
  }

  lemma {:induction false} EntriesRead(sorted: seq<(int, int)>, hdrVa: int, h: seq<byte>, i: nat)
    requires Entries(sorted, hdrVa).Ok? && i < |sorted|
    requires HdrSize(|sorted|) <= |h| && h[12..HdrSize(|sorted|)] == Entries(sorted, hdrVa).value
    ensures EntryAt(h, hdrVa, i) == sorted[i]
    decreases |sorted|
  {
    hide I32, LeI32, EntryAt;
    var n := |sorted| - 1;
    LastEntryRead(h, hdrVa, n, Entries(sorted[..n], hdrVa).value, sorted[n]);
    if i < n {
      EntriesRead(sorted[..n], hdrVa, h, i);
    }
  }

  lemma HdrShape(table: seq<(int, int)>, hdrVa: int, ehVa: int)
    requires SerializeHdr(table, hdrVa, ehVa).Ok?
    ensures FitsI32(ehVa - (hdrVa + 4)) && FitsU32(|table|) && Entries(Sort(PairLe, table), hdrVa).Ok?
    ensures var h := SerializeHdr(table, hdrVa, ehVa).value;
            && Understood(h) && h[4..8] == LeI32(ehVa - (hdrVa + 4))
            && h[8..12] == Le32(|table|)
            && h[12..HdrSize(|table|)] == Entries(Sort(PairLe, table), hdrVa).value
  {
    hide Sort, Entries, LeI32, Le32;
    var h := SerializeHdr(table, hdrVa, ehVa).value;
    var entries := Entries(Sort(PairLe, table), hdrVa).value;
    assert h == HEAD + LeI32(ehVa - (hdrVa + 4)) + Le32(|table|) + entries;
    assert h[12..|h|] == entries;
  }

  /** The printed header reads back: the pointer to the records, and the sorted table, one entry per FDE. */
  lemma HdrReadsBack(table: seq<(int, int)>, hdrVa: int, ehVa: int)
    requires SerializeHdr(table, hdrVa, ehVa).Ok?
    ensures var h := SerializeHdr(table, hdrVa, ehVa).value;
            && Understood(h) && EhPointer(h, hdrVa) == ehVa && CountOf(h) == |table|
            && forall i :: 0 <= i < |table| ==> EntryAt(h, hdrVa, i) == Sort(PairLe, table)[i]
  {
    hide Sort, Entries, I32, LeI32, Le32, U32, EntryAt, SerializeHdr;
    var pointer := ehVa - (hdrVa + 4);
    var sorted := Sort(PairLe, table);
    var h := SerializeHdr(table, hdrVa, ehVa).value;
    HdrShape(table, hdrVa, ehVa);
    I32OfLeI32(h, 4, pointer);
    U32OfLe32(h, 8, |table|);
    forall i | 0 <= i < |table| ensures EntryAt(h, hdrVa, i) == sorted[i] {
      EntriesRead(sorted, hdrVa, h, i);
    }
  }

  /** The unwinder's binary search: the last entry whose start is not above `pc`, by index, or -1. */
  method Search(h: seq<byte>, hdrVa: int, pc: int) returns (k: int)
    requires Understood(h) && |h| >= HdrSize(CountOf(h))
    requires forall i, j :: 0 <= i < j < CountOf(h) ==> EntryAt(h, hdrVa, i).0 <= EntryAt(h, hdrVa, j).0
    ensures -1 <= k < CountOf(h)
    ensures forall i :: 0 <= i < CountOf(h) ==> (EntryAt(h, hdrVa, i).0 <= pc <==> i <= k)
  {
    hide EntryAt, CountOf;
    var lo, hi := 0, CountOf(h);
    while lo < hi
      invariant 0 <= lo <= hi <= CountOf(h)
      invariant forall i :: 0 <= i < lo ==> EntryAt(h, hdrVa, i).0 <= pc
      invariant forall i :: hi <= i < CountOf(h) ==> EntryAt(h, hdrVa, i).0 > pc
    {
      var mid := (lo + hi) / 2;
      if EntryAt(h, hdrVa, mid).0 <= pc { lo := mid + 1; } else { hi := mid; }
    }
    return lo - 1;
  }

  // --- the index against the records ---------------------------------------

  /** The FDEs of a record list, in order. */
  function Fdes(rs: seq<Record>): (fs: seq<Record>)
    ensures forall i :: 0 <= i < |fs| ==> fs[i].Fde?
  {
    if rs == [] then [] else (if rs[0].Fde? then [rs[0]] else []) + Fdes(rs[1..])
  }

  /** The table has one entry per FDE, in order, at ascending addresses. */
  lemma {:induction false} TableMatches(rs: seq<Record>, va: int, off: nat)
    ensures var t := TableFrom(rs, va, off);
            && |t| == |Fdes(rs)|
            && (forall i :: 0 <= i < |t| ==> t[i].0 == Fdes(rs)[i].start && t[i].1 >= va + off)
            && (forall i, j :: 0 <= i < j < |t| ==> t[i].1 < t[j].1)
  {
    if rs != [] {
      TableMatches(rs[1..], va, off + RecordSize(rs[0]));
    }
  }

  lemma FdesSplit(rs: seq<Record>, va: int, off: nat)
    requires rs != []
    ensures Fdes(rs) == (if rs[0].Fde? then [rs[0]] else []) + Fdes(rs[1..])
    ensures TableFrom(rs, va, off) ==
            (if rs[0].Fde? then [(rs[0].start, va + off)] else []) + TableFrom(rs[1..], va, off + RecordSize(rs[0]))
  {
    hide RecordSize;
    assert [] + TableFrom(rs[1..], va, off + RecordSize(rs[0])) == TableFrom(rs[1..], va, off + RecordSize(rs[0]));
  }

  /** Following a table entry into the printed records gives its FDE. */
  lemma {:induction false} EntryPoints(rs: seq<Record>, va: int, pre: seq<byte>, where: seq<nat>, data: seq<byte>, i: nat)
    requires Behind(where, |pre|) && SerializeFrom(rs, va, |pre|, where).Ok? && AllReadable(rs)
    requires data == pre + SerializeFrom(rs, va, |pre|, where).value
    requires rs != [] && i < |Fdes(rs)|
    ensures |TableFrom(rs, va, |pre|)| == |Fdes(rs)|
    ensures var t, f := TableFrom(rs, va, |pre|)[i], Fdes(rs)[i];
            t.1 - va >= 0 && FdeAt(data, va, t.1 - va) == Ok((f.start, f.length, f.rest))
    decreases |rs|
  {
    hide StepAt, FdeBytes, Readable, AllReadable, SerializeFrom, ReadFrom, FdeAt, RecordSize, TableFrom, Fdes;
    FdesSplit(rs, va, |pre|);
    TableMatches(rs, va, |pre|);
    var r := rs[0];
    var mine := FirstPrinted(rs, va, pre, where);
    AllReadableSplit(rs);
    ReadableSize(r);
    BehindNext(where, |pre|, r);
    if r.Fde? && i == 0 {
      FirstFdeAt(rs, va, pre, where, data);
    } else {
      assert rs[1..] == [] ==> Fdes(rs[1..]) == [] by { FdesNone(); }
      EntryPoints(rs[1..], va, pre + mine, Seen(where, r, |pre|), data, if r.Fde? then i - 1 else i);
    }
  }

  lemma FdesNone()
    ensures Fdes([]) == []
  {
  }

  lemma FirstFdeAt(rs: seq<Record>, va: int, pre: seq<byte>, where: seq<nat>, data: seq<byte>)
    requires rs != [] && rs[0].Fde?
    requires Behind(where, |pre|) && SerializeFrom(rs, va, |pre|, where).Ok?
    requires data == pre + SerializeFrom(rs, va, |pre|, where).value
    ensures FdeAt(data, va, |pre|) == Ok((rs[0].start, rs[0].length, rs[0].rest))
  {
    hide FdeBytes, FdeAt;
    var mine := FdeBytes(rs[0], va, |pre|, where[rs[0].cie]).value;
    var post := SerializeFrom(rs[1..], va, |pre| + RecordSize(rs[0]), where).value;
    assert data == pre + mine + post;
    FdeInPlace(rs[0], va, pre, where[rs[0].cie], post);
  }

  /** Where a pair of the table comes after the sort, and back. */
  lemma SortedPlace(table: seq<(int, int)>, e: (int, int)) returns (k: nat)
    requires e in Sort(PairLe, table)
    ensures k < |table| && table[k] == e
  {
    SortMembers(PairLe, table, e);
    k :| k < |table| && table[k] == e;
  }

  /** What looking `pc` up must give: the FDE, by position, a linear scan keeps when it takes every start
      not above `pc` and at least as great as the best so far. */
  ghost predicate IsScanned(fs: seq<Record>, pc: int, r: Option<nat>)
    requires forall i :: 0 <= i < |fs| ==> fs[i].Fde?
  {
    match r
    case None => forall j :: 0 <= j < |fs| ==> fs[j].start > pc
    case Some(i) =>
      && i < |fs| && fs[i].start <= pc
      && forall j :: 0 <= j < |fs| && fs[j].start <= pc ==> fs[j].start <= fs[i].start && (fs[j].start == fs[i].start ==> j <= i)
  }

  /** Among the entries not above `pc`, the one the binary search ends at is the greatest. */
  lemma SearchedIsGreatest(table: seq<(int, int)>, pc: int, k: int, e: (int, int))
    requires var s := Sort(PairLe, table);
             -1 <= k < |s| && forall i :: 0 <= i < |s| ==> (s[i].0 <= pc <==> i <= k)
    requires e in table && e.0 <= pc
    ensures k >= 0 && PairLe(e, Sort(PairLe, table)[k])
  {
    hide Sort;
    var s := Sort(PairLe, table);
    PairOrder();
    SortSorted(PairLe, table);
    SortMembers(PairLe, table, e);
    var m :| 0 <= m < |s| && s[m] == e;
  }

  /** The entry the binary search ends at is the one the linear scan keeps. */
  lemma SearchedIsScanned(rs: seq<Record>, va: int, pc: int, k: int) returns (r: Option<nat>)
    requires var s := Sort(PairLe, Table(rs, va));
             -1 <= k < |s| && forall i :: 0 <= i < |s| ==> (s[i].0 <= pc <==> i <= k)
    ensures IsScanned(Fdes(rs), pc, r)
    ensures r.None? <==> k == -1
    ensures r.Some? ==> |Table(rs, va)| == |Fdes(rs)| && Table(rs, va)[r.value] == Sort(PairLe, Table(rs, va))[k]
  {
    hide Sort, Table, Fdes;
    var table := Table(rs, va);
    var s := Sort(PairLe, table);
    TableOf(rs, va);
    forall j | 0 <= j < |table| && table[j].0 <= pc ensures k >= 0 && PairLe(table[j], s[k]) {
      SearchedIsGreatest(table, pc, k, table[j]);
    }
    if k == -1 {
      r := None;
    } else {
      var i := SortedPlace(table, s[k]);
      r := Some(i);
    }
  }

  lemma TableOf(rs: seq<Record>, va: int)
    ensures var t := Table(rs, va);
            && |t| == |Fdes(rs)|
            && (forall i :: 0 <= i < |t| ==> t[i].0 == Fdes(rs)[i].start)
            && (forall i, j :: 0 <= i < j < |t| ==> t[i].1 < t[j].1)
  {
    TableMatches(rs, va, 0);
  }

  /** The answer to `pc`: what the FDE the linear scan keeps says, or none. */
  ghost predicate IsAnswer(fs: seq<Record>, pc: int, found: Option<(int, int, seq<byte>)>)
    requires forall i :: 0 <= i < |fs| ==> fs[i].Fde?
  {
    exists at: Option<nat> ::
      && IsScanned(fs, pc, at)
      && found == if at.None? then None else var f := fs[at.value]; Some((f.start, f.length, f.rest))
  }

  /** `pc` looked up through the printed header, and the FDE found read out of the printed records: the same
      FDE as a linear scan over the records keeps, for every `pc`. */
  method LookUp(ghost rs: seq<Record>, eh: seq<byte>, ehVa: int, h: seq<byte>, hdrVa: int, pc: int)
    returns (found: Option<(int, int, seq<byte>)>)
    requires AllReadable(rs) && Serialize(rs, ehVa) == Ok(eh)
    requires SerializeHdr(Table(rs, ehVa), hdrVa, ehVa) == Ok(h)
    ensures IsAnswer(Fdes(rs), pc, found)
  {
    hide AllReadable, Serialize, SerializeHdr, FdeAt, Sort, Fdes;
    ghost var table := Table(rs, ehVa);
    HdrReadsBack(table, hdrVa, ehVa);
    PairOrder();
    SortSorted(PairLe, table);
    var k := Search(h, hdrVa, pc);
    ghost var at := SearchedIsScanned(rs, ehVa, pc, k);
    if k == -1 { return None; }
    EntryFollowed(rs, ehVa, eh, at.value);
    var entry := EntryAt(h, hdrVa, k);
    var fde := FdeAt(eh, EhPointer(h, hdrVa), entry.1 - EhPointer(h, hdrVa));
    return Some(fde.value);
  }

  lemma EntryFollowed(rs: seq<Record>, va: int, eh: seq<byte>, i: nat)
    requires AllReadable(rs) && Serialize(rs, va) == Ok(eh) && i < |Fdes(rs)|
    ensures |Table(rs, va)| == |Fdes(rs)|
    ensures var t, f := Table(rs, va)[i], Fdes(rs)[i];
            t.1 - va >= 0 && FdeAt(eh, va, t.1 - va) == Ok((f.start, f.length, f.rest))
  {
    hide Readable, AllReadable, SerializeFrom, FdeAt;
    assert [] + eh == eh;
    FdesNone();
    EntryPoints(rs, va, [], [], eh, i);
  }
}
