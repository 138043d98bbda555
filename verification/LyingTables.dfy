/** A lie about FDEs from end to end: the image read, the record list edited on the chosen functions, the
    image written, and the check of the result. */
module LyingTables {
  import opened Bytes
  import opened EhFrame
  import opened ElfImage
  import opened EhWriter
  import opened FdeEdits
  import opened Share

  /** `stated` is what the records say: each FDE's end by its start. */
  predicate StatesOf(stated: map<int, int>, rs: seq<Record>) {
    && (forall i :: 0 <= i < |rs| && rs[i].Fde? ==> rs[i].start in stated && stated[rs[i].start] == rs[i].start + rs[i].length)
    && (forall s :: s in stated ==> exists i :: 0 <= i < |rs| && rs[i].Fde? && rs[i].start == s)
  }

  /** The chosen share of ascending targets ascends. */
  lemma {:induction false} ChosenAscend(ts: seq<Target>, n: nat, p: nat, q: nat)
    requires q > 0 && StartsAscend(ts)
    ensures StartsAscend(ChosenFrom(ts, n, p, q))
    ensures forall t :: t in ChosenFrom(ts, n, p, q) ==> exists i :: n <= i < |ts| && ts[i] == t
    decreases |ts| - n
  {
    hide Chosen;
    if n < |ts| {
      ChosenAscend(ts, n + 1, p, q);
      var more := ChosenFrom(ts, n + 1, p, q);
      forall j | 0 <= j < |more| ensures ts[n].start < more[j].start {
        assert more[j] in more;
      }
    }
  }

  lemma GoodIsExact(rs: seq<Record>, ts: seq<Target>, stated: map<int, int>)
    requires StartsAscend(ts) && StatesOf(stated, rs) && forall t :: t in ts ==> GoodTarget(t, stated)
    requires forall i :: 0 <= i < |rs| && rs[i].Fde? ==> rs[i].length >= 0
    ensures forall i :: 0 <= i < |rs| ==> Exact(rs[i], ByStart(ts))
    ensures forall t :: t in ts ==> exists i :: 0 <= i < |rs| && rs[i].Fde? && rs[i].start == t.start
  {
    hide ByStart;
    forall i | 0 <= i < |rs| && Hit(rs[i], ByStart(ts)) ensures Exact(rs[i], ByStart(ts)) {
      var t := ByStart(ts)[rs[i].start];
      assert t in ts;
      if t.next.Some? {
        var j :| 0 <= j < |rs| && rs[j].Fde? && rs[j].start == t.next.value.0;
        assert rs[j].length >= 0;
      }
    }
  }

  lemma {:induction false} EditedReadable(k: Edit, rs: seq<Record>, chosen: Choice)
    requires AllReadable(rs)
    ensures AllReadable(Edited(k, rs, chosen))
  {
    hide ParseCie;
    if rs != [] {
      EditedReadable(k, rs[..|rs| - 1], chosen);
    }
  }

  /** What the lie `k` about the functions `ts` made of the image `b`: the image reads as the edited records;
      `verify` accepts it against the ranges before; each function was edited once; every record but theirs is
      as it was, and theirs keep their CIE and their call-frame instructions; the coverage of every address
      changed by what the lie states of them; the program headers are as they were but for the unwind
      tables; and outside the tables no byte of the file changed. */
  ghost predicate Lied(b: seq<byte>, b': seq<byte>, l: Layout, ei: nat, hi: nat, rs: seq<Record>, k: Edit, ts: seq<Target>)
    requires TablesIn(b, l) && l.shstrndx < l.shnum && ei < l.shnum && hi < l.shnum && StartsAscend(ts)
  {
    var (now, planted) := (Edited(k, rs, ByStart(ts)), Touched(rs, ByStart(ts)));
    && TablesIn(b', l) && ReadImage(b', l) == Ok(now)
    && Accepts(Ranges(rs), Ranges(now), AddedBy(k, planted), RemovedBy(k, planted))
    && multiset(planted) == multiset(ts) && RecordsKept(k, rs, ByStart(ts), now)
    && (forall a :: Coverage(now, a) == Coverage(rs, a) + TotalStated(k, ts, a))
    && SegmentsPointed(Phdrs(b, l), Phdrs(b', l), ShdrAt(b, l, ei), ShdrAt(b, l, hi), ShdrAt(b', l, ei), ShdrAt(b', l, hi))
    && BytesKept(b, b', l, ShdrAt(b, l, ei), ShdrAt(b, l, hi))
  }

  /** Over every regular image, every lie and every ascending list of good targets. */
  lemma LieIsAsStated(b: seq<byte>, l: Layout, ei: nat, hi: nat, rs: seq<Record>, k: Edit, ts: seq<Target>, stated: map<int, int>)
    requires Regular(b, l, ei, hi) && UnwindInFile(b, l)
    requires ReadImage(b, l) == Ok(rs) && AllReadable(rs) && DistinctStarts(rs) && StatesOf(stated, rs)
    requires StartsAscend(ts) && forall t :: t in ts ==> GoodTarget(t, stated)
    requires WriteEh(b, l, Edited(k, rs, ByStart(ts))).Ok?
    ensures Lied(b, WriteEh(b, l, Edited(k, rs, ByStart(ts))).value, l, ei, hi, rs, k, ts)
  {
    hide Edited, ByStart, WriteEh, Regular, ReadImage, Touched, Exact, GoodTarget, Ranges, BytesKept, ShdrAt, AllReadable,
      UnwindInFile, Coverage, TotalStated, SegmentsPointed, RecordsKept, AddedBy, RemovedBy, StartsAscend, StatesOf, TablesIn, ShdrOf, PhdrOf;
    var chosen := ByStart(ts);
    var out := Edited(k, rs, chosen);
    RegularTables(b, l, ei, hi);
    ImageLengths(b, l, rs);
    GoodIsExact(rs, ts, stated);
    EditedReadable(k, rs, chosen);
    WrittenImage(b, l, out, ei, hi);
    EditVerifies(k, rs, chosen);
    TouchedExactly(rs, ts);
    EditKeeps(k, rs, chosen);
    forall a ensures Coverage(out, a) == Coverage(rs, a) + TotalStated(k, ts, a) {
      EditChangesCoverage(k, rs, ts, a);
    }
  }

  // --- from the functions of the file to its image --------------------------

  /** The targets an edit can be made on: `fde_long` needs the function behind. */
  function Eligible(k: Edit, ts: seq<Target>): (r: seq<Target>) {
    if ts == [] then []
    else Eligible(k, ts[..|ts| - 1]) + if k == Long && ts[|ts| - 1].next.None? then [] else [ts[|ts| - 1]]
  }

  lemma {:induction false} EligibleIs(k: Edit, ts: seq<Target>)
    requires StartsAscend(ts)
    ensures StartsAscend(Eligible(k, ts))
    ensures forall t :: t in Eligible(k, ts) <==> t in ts && (k == Long ==> t.next.Some?)
  {
    if ts != [] {
      var n := |ts| - 1;
      EligibleIs(k, ts[..n]);
      assert ts == ts[..n] + [ts[n]];
      forall t | t in Eligible(k, ts[..n]) ensures t.start < ts[n].start {
        assert t in ts[..n];
      }
    }
  }

  /** The functions a lie at the share p/q is told of: what `read_before` found, less those it cannot be told
      of, and the share of the rest. */
  function ToldOf(k: Edit, before: seq<Target>, p: nat, q: nat): seq<Target>
    requires q > 0
  {
    ChosenFrom(Eligible(k, before), 0, p, q)
  }

  lemma ToldOfGood(k: Edit, before: seq<Target>, stated: map<int, int>, p: nat, q: nat)
    requires 0 < q && p <= q && StartsAscend(before) && forall t :: t in before ==> GoodTarget(t, stated)
    ensures var ts := ToldOf(k, before, p, q);
            && StartsAscend(ts) && |ts| == |Eligible(k, before)| * p / q
            && forall t :: t in ts ==> GoodTarget(t, stated) && (k == Long ==> t.next.Some?)
  {
    hide GoodTarget, Eligible, ChosenFrom, StartsAscend;
    EligibleIs(k, before);
    ChosenAscend(Eligible(k, before), 0, p, q);
    ChosenCount(Eligible(k, before), 0, p, q);
    FloorOfNone(p, q);
  }

  /** The whole of a lie, for every share p/q: from the functions the truth knows, the FDE ranges stated and the
      instructions there are, to the written image. It is told of exactly the floor of the share of the
      functions it can be told of, and the image is as it states. */
  lemma LieFromFunctions(b: seq<byte>, l: Layout, ei: nat, hi: nat, rs: seq<Record>, k: Edit, funcs: seq<(int, int)>,
                         stated: map<int, int>, addrs: seq<int>, size: map<int, nat>, aarch64: bool, p: nat, q: nat)
    requires Regular(b, l, ei, hi) && UnwindInFile(b, l)
    requires ReadImage(b, l) == Ok(rs) && AllReadable(rs) && DistinctStarts(rs) && StatesOf(stated, rs)
    requires (forall i, j :: 0 <= i < j < |funcs| ==> funcs[i].0 < funcs[j].0) && Ascending(addrs)
    requires 0 < q && p <= q
    ensures var before := Targets(funcs, |funcs|, stated, addrs, size, aarch64);
            var ts := ToldOf(k, before, p, q);
            && StartsAscend(ts) && |ts| == |Eligible(k, before)| * p / q
            && (WriteEh(b, l, Edited(k, rs, ByStart(ts))).Ok? ==>
                  Lied(b, WriteEh(b, l, Edited(k, rs, ByStart(ts))).value, l, ei, hi, rs, k, ts))
  {
    hide Regular, UnwindInFile, ReadImage, AllReadable, StatesOf, Targets, ToldOf, Eligible, ByStart, Edited, WriteEh, Lied,
      GoodTarget, StartsAscend, Ascending;
    TargetsGood(funcs, |funcs|, stated, addrs, size, aarch64);
    var before := Targets(funcs, |funcs|, stated, addrs, size, aarch64);
    ToldOfGood(k, before, stated, p, q);
    var ts := ToldOf(k, before, p, q);
    RegularTables(b, l, ei, hi);
    if WriteEh(b, l, Edited(k, rs, ByStart(ts))).Ok? {
      LieIsAsStated(b, l, ei, hi, rs, k, ts, stated);
    }
  }

  /** `_edit_fdes` on an image: read, edited, written. */
  method EditImage(elf: Elf, k: Edit, before: seq<Target>, p: nat, q: nat) returns (r: Result<seq<Planted>>)
    requires elf.Valid() && UnwindInFile(elf.b, elf.l) && q > 0 && StartsAscend(before)
    modifies elf
    ensures elf.Valid() && StartsAscend(ToldOf(k, before, p, q))
    ensures var (was, chosen) := (ReadImage(old(elf.b), elf.l), ByStart(ToldOf(k, before, p, q)));
            && (r.Ok? <==> was.Ok? && WriteEh(old(elf.b), elf.l, Edited(k, was.value, chosen)).Ok?)
            && (r.Ok? ==>
                  && elf.b == WriteEh(old(elf.b), elf.l, Edited(k, was.value, chosen)).value
                  && |r.value| == |Touched(was.value, chosen)|
                  && forall i :: 0 <= i < |r.value| ==> r.value[i] == Plant(k, Touched(was.value, chosen)[i]))
  {
    hide UnwindInFile, WriteEh, Edited, Touched, ByStart, StartsAscend, Eligible, Shdrs, ShdrOf, PhdrOf, Read, ChosenFrom,
      FindSection, TablesIn;
    EligibleIs(k, before);
    ChosenAscend(Eligible(k, before), 0, p, q);
    var found :- Section(elf.b, elf.l, ".eh_frame");
    if found.None? { return Err; }
    var s := Shdrs(elf.b, elf.l)[found.value];
    var records :- ReadEh(BytesOf(elf.b, s), s.addr);
    var chosen := ByStart(ToldOf(k, before, p, q));
    var out, planted := EditFdes(k, records, chosen);
    var _ :- elf.WriteRecords(out);
    return Ok(planted);
  }

  lemma RegularTables(b: seq<byte>, l: Layout, ei: nat, hi: nat)
    requires Regular(b, l, ei, hi)
    ensures TablesIn(b, l) && l.shstrndx < l.shnum && ei < l.shnum && hi < l.shnum
  {
  }

  lemma ImageLengths(b: seq<byte>, l: Layout, rs: seq<Record>)
    requires TablesIn(b, l) && l.shstrndx < l.shnum && ReadImage(b, l) == Ok(rs)
    ensures forall i :: 0 <= i < |rs| && rs[i].Fde? ==> rs[i].length >= 0
  {
    hide ShdrOf, PhdrOf, StepAt, ReadFrom;
    var s := Shdrs(b, l)[Needed(b, l, ".eh_frame").value];
    ReadLengths(BytesOf(b, s), s.addr, 0, []);
  }
}
