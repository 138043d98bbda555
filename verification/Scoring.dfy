/** The rule-accuracy scorer: every answered start classified against the truth, the truth found and missed
    per tier, and what moving one true start into a function changes. */
module Scoring {
  import opened Bytes
  import opened Extents

  datatype Tier = Dwarf | Symtab | Plt

  datatype Class = True | Fragment | Plt0 | Interior | Outside

  /** The truth: function starts in order with their tiers, fragment starts, PLT heads, every extent. */
  datatype Truth = Truth(functions: seq<(int, Tier)>, fragments: set<int>, heads: set<int>, spans: seq<Extent>)

  predicate IsFunction(t: Truth, va: int) {
    exists i :: 0 <= i < |t.functions| && t.functions[i].0 == va
  }

  /** `Truth.classify`. */
  function Classify(t: Truth, va: int): Class {
    if IsFunction(t, va) then True
    else if va in t.fragments then Fragment
    else if va in t.heads then Plt0
    else if Containing(t.spans, va).Some? then Interior
    else Outside
  }

  /** Every address falls in exactly one class: a function's start is true, whatever else it is; of the others a
      fragment's start is a fragment, a PLT head that is none is a PLT head, and the rest are inside an extent
      or outside all. */
  lemma ClassifyMeans(t: Truth, va: int)
    ensures Classify(t, va) == True <==> exists i :: 0 <= i < |t.functions| && t.functions[i].0 == va
    ensures Classify(t, va) == Fragment <==> !IsFunction(t, va) && va in t.fragments
    ensures Classify(t, va) == Plt0 <==> !IsFunction(t, va) && va !in t.fragments && va in t.heads
    ensures Classify(t, va) in {Interior, Outside} <==> !IsFunction(t, va) && va !in t.fragments && va !in t.heads
    ensures ByLow(t.spans) && (forall e :: e in t.spans ==> e.hi - e.lo <= 0x10_0001) ==>
              (Classify(t, va) == Interior <==>
                 && !IsFunction(t, va) && va !in t.fragments && va !in t.heads
                 && exists e :: e in t.spans && e.lo < va < e.hi)
  {
    hide Containing;
    if ByLow(t.spans) && forall e :: e in t.spans ==> e.hi - e.lo <= 0x10_0001 {
      EarlyStopExact(t.spans, va);
      if e :| e in t.spans && Inside(e, va) {
        var j :| 0 <= j < |t.spans| && t.spans[j] == e;
      }
    }
  }

  /** One listed function: its start, whether `why` answers for it, whether only a heuristic found it. */
  datatype Listed = Listed(va: int, answered: bool, heuristic: bool)

  datatype Row = Row(va: int, class_: Class, heuristic: bool)

  predicate DistinctStarts(ls: seq<Listed>) {
    forall i, j :: 0 <= i < j < |ls| ==> ls[i].va != ls[j].va
  }

  function RowOf(t: Truth, x: Listed): Row { Row(x.va, Classify(t, x.va), x.heuristic) }

  /** The rows: one per listed start that `why` answers for. */
  function Rows(t: Truth, ls: seq<Listed>): seq<Row> {
    if ls == [] then []
    else
      var n := |ls| - 1;
      Rows(t, ls[..n]) + if ls[n].answered then [RowOf(t, ls[n])] else []
  }

  function Is(r: Row, c: Class, heuristic: bool): nat {
    if r.class_ == c && r.heuristic == heuristic then 1 else 0
  }

  /** The rows of one class and one kind of source. */
  function Count(rows: seq<Row>, c: Class, heuristic: bool): nat {
    if rows == [] then 0 else Count(rows[..|rows| - 1], c, heuristic) + Is(rows[|rows| - 1], c, heuristic)
  }

  function ClassTotal(rows: seq<Row>, c: Class): nat { Count(rows, c, true) + Count(rows, c, false) }

  function Found(rows: seq<Row>): set<int> {
    set i | 0 <= i < |rows| :: rows[i].va
  }

  /** The rows are the answered starts, in order, each with its own class and kind of source. */
  lemma {:induction false} RowsAre(t: Truth, ls: seq<Listed>, n: nat)
    requires n < |ls| && ls[n].answered
    ensures var i := Answered(ls[..n]);
            && |Rows(t, ls)| == Answered(ls) && i < Answered(ls)
            && Rows(t, ls)[i] == Row(ls[n].va, Classify(t, ls[n].va), ls[n].heuristic)
    decreases |ls|
  {
    hide Classify;
    var m := |ls| - 1;
    RowsLength(t, ls);
    RowsLength(t, ls[..m]);
    if n < m {
      RowsAre(t, ls[..m], n);
      assert ls[..m][..n] == ls[..n];
    }
  }

  /** How many starts are answered for. */
  function Answered(ls: seq<Listed>): nat {
    if ls == [] then 0 else Answered(ls[..|ls| - 1]) + if ls[|ls| - 1].answered then 1 else 0
  }

  lemma {:induction false} RowsLength(t: Truth, ls: seq<Listed>)
    ensures |Rows(t, ls)| == Answered(ls)
  {
    if ls != [] {
      RowsLength(t, ls[..|ls| - 1]);
    }
  }

  /** The counting loops over the listed functions. */
  method ScoreRows(t: Truth, ls: seq<Listed>) returns (rows: seq<Row>, classes: map<Class, nat>, found: set<int>)
    ensures rows == Rows(t, ls) && found == Found(rows)
    ensures forall c :: (if c in classes then classes[c] else 0) == ClassTotal(rows, c)
  {
    rows, classes, found := [], map[], {};
    for i := 0 to |ls|
      invariant rows == Rows(t, ls[..i]) && found == Found(rows)
    {
      assert ls[..i + 1][..i] == ls[..i];
      if !ls[i].answered { continue; }
      var r := RowOf(t, ls[i]);
      FoundGrows(rows, r);
      rows := rows + [r];
      found := found + {r.va};
    }
    assert ls[..|ls|] == ls;
    for i := 0 to |rows|
      invariant forall c :: (if c in classes then classes[c] else 0) == ClassTotal(rows[..i], c)
    {
      var c := rows[i].class_;
      assert rows[..i + 1][..i] == rows[..i] && rows[..i + 1][i] == rows[i];
      classes := classes[c := (if c in classes then classes[c] else 0) + 1];
    }
    assert rows[..|rows|] == rows;
  }

  lemma FoundGrows(rows: seq<Row>, r: Row)
    ensures Found(rows + [r]) == Found(rows) + {r.va}
  {
    var all := rows + [r];
    assert forall i :: 0 <= i < |rows| ==> all[i] == rows[i];
    assert all[|rows|] == r;
    forall va ensures va in Found(all) <==> va in Found(rows) + {r.va} {
      if va in Found(rows) {
        var i :| 0 <= i < |rows| && rows[i].va == va;
        assert all[i].va == va;
      }
    }
  }

  /** Every row falls in exactly one class. */
  lemma {:induction false} ClassesAddUp(rows: seq<Row>)
    ensures ClassTotal(rows, True) + ClassTotal(rows, Fragment) + ClassTotal(rows, Plt0)
            + ClassTotal(rows, Interior) + ClassTotal(rows, Outside) == |rows|
  {
    if rows != [] {
      ClassesAddUp(rows[..|rows| - 1]);
    }
  }

  // --- the truth found and missed ------------------------------------------

  /** The functions of a tier that were found, or that were missed. */
  function TierCount(fs: seq<(int, Tier)>, tier: Tier, found: set<int>, hit: bool): nat {
    if fs == [] then 0
    else
      var f := fs[|fs| - 1];
      TierCount(fs[..|fs| - 1], tier, found, hit) + if f.1 == tier && (f.0 in found) == hit then 1 else 0
  }

  function InTier(fs: seq<(int, Tier)>, tier: Tier): nat {
    if fs == [] then 0 else InTier(fs[..|fs| - 1], tier) + if fs[|fs| - 1].1 == tier then 1 else 0
  }

  lemma {:induction false} FoundPlusMissed(fs: seq<(int, Tier)>, tier: Tier, found: set<int>)
    ensures TierCount(fs, tier, found, true) + TierCount(fs, tier, found, false) == InTier(fs, tier)
  {
    if fs != [] {
      FoundPlusMissed(fs[..|fs| - 1], tier, found);
    }
  }

  predicate DistinctFunctions(fs: seq<(int, Tier)>) {
    forall i, j :: 0 <= i < j < |fs| ==> fs[i].0 != fs[j].0
  }

  /** The starts of a tier that are among those found, or are not. */
  function TierStarts(fs: seq<(int, Tier)>, tier: Tier, found: set<int>, hit: bool): set<int> {
    set i | 0 <= i < |fs| && InPart(fs[i], tier, found, hit) :: fs[i].0
  }

  predicate InPart(f: (int, Tier), tier: Tier, found: set<int>, hit: bool) {
    f.1 == tier && if hit then f.0 in found else f.0 !in found
  }

  /** The counts of a tier are the numbers of its starts that were found and that were missed. */
  lemma {:induction false} TierCountIs(fs: seq<(int, Tier)>, tier: Tier, found: set<int>, hit: bool)
    requires DistinctFunctions(fs)
    ensures TierCount(fs, tier, found, hit) == |TierStarts(fs, tier, found, hit)|
  {
    if fs == [] {
      assert TierStarts(fs, tier, found, hit) == {};
    } else {
      var n := |fs| - 1;
      assert DistinctFunctions(fs[..n]);
      TierCountIs(fs[..n], tier, found, hit);
      hide TierStarts;
      TierGrows(fs, tier, found, hit);
    }
  }

  /** One function more. */
  lemma TierGrows(fs: seq<(int, Tier)>, tier: Tier, found: set<int>, hit: bool)
    requires fs != [] && DistinctFunctions(fs)
    ensures var (n, before) := (|fs| - 1, TierStarts(fs[..|fs| - 1], tier, found, hit));
            && fs[n].0 !in before
            && TierStarts(fs, tier, found, hit) ==
               if fs[n].1 == tier && (fs[n].0 in found) == hit then before + {fs[n].0} else before
  {
    var n := |fs| - 1;
    var before := TierStarts(fs[..n], tier, found, hit);
    assert forall i :: 0 <= i < n ==> fs[..n][i] == fs[i];
    forall x ensures x in before <==> exists i :: 0 <= i < n && InPart(fs[i], tier, found, hit) && fs[i].0 == x {
      if i :| 0 <= i < n && InPart(fs[i], tier, found, hit) && fs[i].0 == x {
        assert InPart(fs[..n][i], tier, found, hit);
      }
    }
  }

  function Missed(t: Truth, found: set<int>): set<int> {
    set i | 0 <= i < |t.functions| && t.functions[i].0 !in found :: t.functions[i].0
  }

  /** The loop over the truth's functions. */
  method ScoreTiers(t: Truth, found: set<int>) returns (truth: map<Tier, nat>, hit: map<Tier, nat>, missed: map<Tier, nat>, missedAt: set<int>)
    ensures missedAt == Missed(t, found)
    ensures forall k :: At(truth, k) == InTier(t.functions, k)
    ensures forall k :: At(hit, k) == TierCount(t.functions, k, found, true)
    ensures forall k :: At(missed, k) == TierCount(t.functions, k, found, false)
  {
    truth, hit, missed, missedAt := map[], map[], map[], {};
    for i := 0 to |t.functions|
      invariant missedAt == set j | 0 <= j < i && t.functions[j].0 !in found :: t.functions[j].0
      invariant forall k :: At(truth, k) == InTier(t.functions[..i], k)
      invariant forall k :: At(hit, k) == TierCount(t.functions[..i], k, found, true)
      invariant forall k :: At(missed, k) == TierCount(t.functions[..i], k, found, false)
    {
      assert t.functions[..i + 1][..i] == t.functions[..i];
      var (start, tier) := t.functions[i];
      truth := truth[tier := At(truth, tier) + 1];
      if start !in found {
        missed := missed[tier := At(missed, tier) + 1];
        missedAt := missedAt + {start};
      } else {
        hit := hit[tier := At(hit, tier) + 1];
      }
    }
    assert t.functions[..|t.functions|] == t.functions;
  }

  function At(m: map<Tier, nat>, k: Tier): nat { if k in m then m[k] else 0 }

  // --- moving one start ----------------------------------------------------

  /** `move_start`: the `k`-th listed start moved to `va`. */
  function MoveStart(ls: seq<Listed>, k: nat, va: int): seq<Listed>
    requires k < |ls|
  {
    ls[k := ls[k].(va := va)]
  }

  lemma {:induction false} RowsConcat(t: Truth, xs: seq<Listed>, ys: seq<Listed>)
    ensures Rows(t, xs + ys) == Rows(t, xs) + Rows(t, ys)
  {
    if ys == [] {
      assert xs + ys == xs && Rows(t, xs) + [] == Rows(t, xs);
    } else {
      var n := |ys| - 1;
      RowsConcat(t, xs, ys[..n]);
      assert (xs + ys)[..|xs| + n] == xs + ys[..n];
    }
  }

  lemma {:induction false} CountConcat(xs: seq<Row>, ys: seq<Row>, c: Class, h: bool)
    ensures Count(xs + ys, c, h) == Count(xs, c, h) + Count(ys, c, h)
  {
    if ys == [] {
      assert xs + ys == xs;
    } else {
      var n := |ys| - 1;
      CountConcat(xs, ys[..n], c, h);
      assert (xs + ys)[..|xs| + n] == xs + ys[..n];
    }
  }

  /** The rows split at one answered start. */
  lemma RowsAround(t: Truth, ls: seq<Listed>, k: nat)
    requires k < |ls| && ls[k].answered
    ensures Rows(t, ls) == Rows(t, ls[..k]) + [RowOf(t, ls[k])] + Rows(t, ls[k + 1..])
  {
    assert ls == ls[..k] + [ls[k]] + ls[k + 1..];
    RowsConcat(t, ls[..k] + [ls[k]], ls[k + 1..]);
    RowsConcat(t, ls[..k], [ls[k]]);
    assert [ls[k]][..0] == [];
    assert Rows(t, [ls[k]]) == [RowOf(t, ls[k])];
  }

  lemma CountAround(a: seq<Row>, r: Row, b: seq<Row>, c: Class, h: bool)
    ensures Count(a + [r] + b, c, h) == Count(a, c, h) + Is(r, c, h) + Count(b, c, h)
  {
    CountConcat(a + [r], b, c, h);
    CountConcat(a, [r], c, h);
    assert [r][..0] == [];
  }

  lemma {:induction false} RowsStarts(t: Truth, ls: seq<Listed>, va: int)
    ensures va in Found(Rows(t, ls)) <==> exists i :: 0 <= i < |ls| && ls[i].answered && ls[i].va == va
  {
    if ls != [] {
      var n := |ls| - 1;
      RowsStarts(t, ls[..n], va);
      assert forall i :: 0 <= i < n ==> ls[..n][i] == ls[i];
      if ls[n].answered {
        FoundGrows(Rows(t, ls[..n]), RowOf(t, ls[n]));
      } else {
        assert Rows(t, ls) == Rows(t, ls[..n]);
      }
    }
  }

  /** Moving one answered true start to a fresh interior address: one fewer true start and one more interior
      one, both of its own kind of source, nothing else in any class; the truth loses exactly that start. */
  lemma MovedStart(t: Truth, ls: seq<Listed>, k: nat, va: int)
    requires k < |ls| && ls[k].answered && DistinctStarts(ls)
    requires Classify(t, ls[k].va) == True && Classify(t, va) == Interior
    requires forall i :: 0 <= i < |ls| ==> ls[i].va != va
    ensures var (rows, rows') := (Rows(t, ls), Rows(t, MoveStart(ls, k, va)));
            && (forall c, h :: Count(rows', c, h) == Count(rows, c, h)
                  + (if c == Interior && h == ls[k].heuristic then 1 else 0)
                  - (if c == True && h == ls[k].heuristic then 1 else 0))
            && ls[k].va !in Missed(t, Found(rows))
            && Missed(t, Found(rows')) == Missed(t, Found(rows)) + {ls[k].va}
  {
    hide Classify, Rows, Count, Found;
    var ls' := MoveStart(ls, k, va);
    var (rows, rows') := (Rows(t, ls), Rows(t, ls'));
    RowsAround(t, ls, k);
    RowsAround(t, ls', k);
    assert ls'[..k] == ls[..k] && ls'[k + 1..] == ls[k + 1..];
    forall c, h
      ensures Count(rows', c, h) == Count(rows, c, h)
                + (if c == Interior && h == ls[k].heuristic then 1 else 0)
                - (if c == True && h == ls[k].heuristic then 1 else 0)
    {
      CountAround(Rows(t, ls[..k]), RowOf(t, ls[k]), Rows(t, ls[k + 1..]), c, h);
      CountAround(Rows(t, ls[..k]), RowOf(t, ls'[k]), Rows(t, ls[k + 1..]), c, h);
    }
    MissedAfterMove(t, ls, k, va);
  }

  lemma MissedAfterMove(t: Truth, ls: seq<Listed>, k: nat, va: int)
    requires k < |ls| && ls[k].answered && DistinctStarts(ls)
    requires Classify(t, ls[k].va) == True && Classify(t, va) == Interior
    requires forall i :: 0 <= i < |ls| ==> ls[i].va != va
    ensures var (was, now) := (Found(Rows(t, ls)), Found(Rows(t, MoveStart(ls, k, va))));
            && ls[k].va !in Missed(t, was) && Missed(t, now) == Missed(t, was) + {ls[k].va}
  {
    hide Rows, Found;
    var old_ := ls[k].va;
    assert IsFunction(t, old_) && !IsFunction(t, va);
    var ls' := MoveStart(ls, k, va);
    forall x
      ensures x in Found(Rows(t, ls')) <==> x == va || (x in Found(Rows(t, ls)) && x != old_)
    {
      RowsStarts(t, ls, x);
      RowsStarts(t, ls', x);
      assert forall i :: 0 <= i < |ls| && i != k ==> ls'[i] == ls[i];
      if x == va {
        assert ls'[k].va == va;
      }
    }
    RowsStarts(t, ls, old_);
    var (was, now) := (Found(Rows(t, ls)), Found(Rows(t, ls')));
    var i :| 0 <= i < |t.functions| && t.functions[i].0 == old_;
    forall x ensures x in Missed(t, now) <==> x in Missed(t, was) + {old_} {
    }
  }

  /** A start moved by one byte lies inside its own function, where that is longer than a byte and no other
      owned extent starts with it: the nearest owned extent below an address is found before any stop. */
  lemma MovedByOne(t: Truth, start: int, end: int)
    requires ByLow(t.spans) && end > start + 1 && Extent(start, end, start) in t.spans && start != NO_OWNER
    requires forall e :: e in t.spans && e.lo == start && e.owner != NO_OWNER ==> e.owner == start
    ensures Containing(t.spans, start + 1).Some? && Containing(t.spans, start + 1).value.owner == start
  {
    var (spans, va) := (t.spans, start + 1);
    AboveBisection(spans, va);
    var n := BisectRight(ExtentLows(spans), va);
    var k :| 0 <= k < |spans| && spans[k] == Extent(start, end, start);
    BisectRightParts(ExtentLows(spans), va);
    assert ExtentLows(spans)[k] <= va;
    var stop := ScanReaches(spans, va, n, None);
    assert stop > 0 ==> spans[stop].lo < spans[k].lo;
    assert stop <= k;
    OwnedAt(spans, stop, va, Containing(spans, va), k);
  }

  /** When an owned extent holds an address, what contains it is owned and starts no lower. */
  lemma OwnedAt(spans: seq<Extent>, from: nat, va: int, r: Option<Extent>, k: nat)
    requires ByLow(spans) && IsContaining(spans, from, va, r)
    requires from <= k < |spans| && Inside(spans[k], va) && spans[k].owner != NO_OWNER
    ensures r.Some? && r.value in spans && r.value.owner != NO_OWNER && spans[k].lo <= r.value.lo < va
  {
  }
}
