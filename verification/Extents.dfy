/** The fast lookups of the scorers against their plain definitions: spans merged and bisected
    (`Warnings.covers`, `covered`), and the backward scan with an early stop (`Truth.containing`). */
module Extents {
  import opened Bytes
  import opened Sorting

  type Span = (int, int)

  predicate Holds(s: Span, va: int) { s.0 <= va < s.1 }

  function Last<T>(s: seq<T>): T
    requires s != []
  {
    s[|s| - 1]
  }

  /** One span merged into the list: it widens the last interval, or starts another. */
  function MergeOne(merged: seq<Span>, s: Span): (r: seq<Span>)
    ensures r != []
  {
    if merged != [] && s.0 <= Last(merged).1 then
      merged[|merged| - 1 := (Last(merged).0, if s.1 > Last(merged).1 then s.1 else Last(merged).1)]
    else merged + [s]
  }

  function Merged(spans: seq<Span>): seq<Span> {
    if spans == [] then [] else MergeOne(Merged(spans[..|spans| - 1]), Last(spans))
  }

  method MergeSpans(spans: seq<Span>) returns (merged: seq<Span>)
    ensures merged == Merged(Sort(PairLe, spans))
  {
    var sorted := Sort(PairLe, spans);
    merged := [];
    for i := 0 to |sorted|
      invariant merged == Merged(sorted[..i])
    {
      assert sorted[..i + 1][..i] == sorted[..i];
      var (lo, hi) := sorted[i];
      if merged != [] && lo <= merged[|merged| - 1].1 {
        var last := merged[|merged| - 1];
        merged := merged[|merged| - 1 := (last.0, if hi > last.1 then hi else last.1)];
      } else {
        merged := merged + [(lo, hi)];
      }
    }
    assert sorted[..|sorted|] == sorted;
  }

  /** Ascending, with a gap behind each interval. */
  predicate Gapped(m: seq<Span>) {
    forall i, j :: 0 <= i < j < |m| ==> m[i].0 <= m[j].0 && m[i].1 < m[j].0
  }

  predicate Starts(spans: seq<Span>) {
    forall i, j :: 0 <= i < j < |spans| ==> spans[i].0 <= spans[j].0
  }

  predicate Covered(spans: seq<Span>, va: int) {
    exists i :: 0 <= i < |spans| && Holds(spans[i], va)
  }

  lemma MergeOneKeeps(m: seq<Span>, s: Span, va: int)
    requires Gapped(m) && (m != [] ==> Last(m).0 <= s.0)
    ensures Gapped(MergeOne(m, s)) && Last(MergeOne(m, s)).0 <= s.0
    ensures Covered(MergeOne(m, s), va) <==> Covered(m, va) || Holds(s, va)
  {
    var r := MergeOne(m, s);
    var n := |m| - 1;
    if m != [] && s.0 <= Last(m).1 {
      assert forall i :: 0 <= i < n ==> r[i] == m[i];
      assert Holds(r[n], va) <==> Holds(m[n], va) || Holds(s, va);
    } else {
      assert forall i :: 0 <= i < |m| ==> r[i] == m[i];
      assert r[|m|] == s;
    }
  }

  /** Merging keeps exactly the addresses covered, and leaves gapped intervals. */
  lemma {:induction false} MergedKeeps(spans: seq<Span>, va: int)
    requires Starts(spans)
    ensures Gapped(Merged(spans)) && (spans != [] ==> Last(Merged(spans)).0 <= Last(spans).0)
    ensures Covered(Merged(spans), va) <==> Covered(spans, va)
  {
    hide MergeOne;
    if spans != [] {
      var n := |spans| - 1;
      var front := spans[..n];
      MergedKeeps(front, va);
      MergeOneKeeps(Merged(front), spans[n], va);
      assert forall i :: 0 <= i < n ==> front[i] == spans[i];
      assert Covered(spans, va) <==> Covered(front, va) || Holds(spans[n], va);
    }
  }

  /** `bisect.bisect_right` on an ascending list. */
  function BisectRight(s: seq<int>, x: int): (n: nat)
    ensures n <= |s|
  {
    if s == [] || s[0] > x then 0 else 1 + BisectRight(s[1..], x)
  }

  lemma {:induction false} BisectRightParts(s: seq<int>, x: int)
    requires forall i, j :: 0 <= i < j < |s| ==> s[i] <= s[j]
    ensures forall i :: 0 <= i < |s| ==> (s[i] <= x <==> i < BisectRight(s, x))
  {
    if s != [] && s[0] <= x {
      BisectRightParts(s[1..], x);
      assert forall i :: 1 <= i < |s| ==> s[i] == s[1..][i - 1];
    }
  }

  function Lows(m: seq<Span>): (r: seq<int>)
    ensures |r| == |m| && forall i :: 0 <= i < |m| ==> r[i] == m[i].0
  {
    seq(|m|, i requires 0 <= i < |m| => m[i].0)
  }

  /** Whether `va` is in the interval the bisection picks. */
  predicate InMerged(m: seq<Span>, va: int) {
    var i := BisectRight(Lows(m), va) - 1;
    i >= 0 && va < m[i].1
  }

  lemma InMergedExactly(m: seq<Span>, va: int)
    requires Gapped(m)
    ensures InMerged(m, va) <==> Covered(m, va)
  {
    BisectRightParts(Lows(m), va);
    var i := BisectRight(Lows(m), va) - 1;
    if i >= 0 {
      assert Lows(m)[i] <= va;
    }
    forall j | 0 <= j < |m| && Holds(m[j], va) ensures j == i {
      assert Lows(m)[j] <= va;
    }
  }

  /** For every list of spans, in any order, overlapping, empty or inverted: the merged and bisected form
      holds an address exactly when some span does. */
  lemma FastFormExact(spans: seq<Span>, va: int)
    ensures InMerged(Merged(Sort(PairLe, spans)), va) <==> Covered(spans, va)
  {
    hide Sort, Merged, InMerged, Holds;
    var sorted := Sort(PairLe, spans);
    PairOrder();
    SortSorted(PairLe, spans);
    MergedKeeps(sorted, va);
    InMergedExactly(Merged(sorted), va);
    if Covered(spans, va) {
      var i :| 0 <= i < |spans| && Holds(spans[i], va);
      SortMembers(PairLe, spans, spans[i]);
      var j :| 0 <= j < |sorted| && sorted[j] == spans[i];
    }
    if Covered(sorted, va) {
      var i :| 0 <= i < |sorted| && Holds(sorted[i], va);
      SortMembers(PairLe, spans, sorted[i]);
      var j :| 0 <= j < |spans| && spans[j] == sorted[i];
    }
  }

  /** `Warnings`: the addresses and the extents `contradictions` names. */
  datatype Contradiction =
    | Overlap(first: Span, second: Span)
    | End(start: int, ends: seq<int>)
    | Name(addr: int)

  function Greatest(s: seq<int>): (r: int)
    requires s != []
    ensures r in s && forall x :: x in s ==> x <= r
  {
    if |s| == 1 then s[0]
    else
      assert s == [s[0]] + s[1..];
      var r := Greatest(s[1..]);
      if s[0] > r then s[0] else r
  }

  function NamedBy(c: Contradiction): set<int> {
    match c
    case Overlap(a, b) => {a.0, b.0}
    case End(start, _) => {start}
    case Name(addr) => {addr}
  }

  function SpansOf(c: Contradiction): seq<Span>
    requires c.End? ==> c.ends != []
  {
    match c
    case Overlap(a, b) => [a, b]
    case End(start, ends) => [(start, Greatest(ends))]
    case Name(_) => []
  }

  /** A contradiction speaks of `va`: two extents that overlap name their starts and doubt every address of
      either; ends that differ name the start and doubt every address below any of them; a name doubts its
      own address. */
  predicate SpeaksOf(c: Contradiction, va: int) {
    match c
    case Overlap(a, b) => va == a.0 || va == b.0 || Holds(a, va) || Holds(b, va)
    case End(start, ends) => va == start || (start <= va && exists e :: e in ends && va < e)
    case Name(addr) => va == addr
  }

  lemma SpeaksOfIs(c: Contradiction, va: int)
    requires c.End? ==> c.ends != []
    ensures SpeaksOf(c, va) <==> va in NamedBy(c) || Covered(SpansOf(c), va)
  {
    match c
    case Overlap(a, b) => assert [a, b][0] == a && [a, b][1] == b;
    case End(start, ends) =>
      assert [(start, Greatest(ends))][0] == (start, Greatest(ends));
      assert Greatest(ends) in ends;
    case Name(_) =>
  }

  /** What `contradictions` warns of. */
  predicate Warned(cs: seq<Contradiction>, va: int) {
    exists i :: 0 <= i < |cs| && SpeaksOf(cs[i], va)
  }

  lemma WarnedGrows(cs: seq<Contradiction>, n: nat, va: int)
    requires n < |cs| && forall i :: 0 <= i < |cs| && cs[i].End? ==> cs[i].ends != []
    ensures Warned(cs[..n + 1], va) <==> Warned(cs[..n], va) || va in NamedBy(cs[n]) || Covered(SpansOf(cs[n]), va)
  {
    hide NamedBy, SpansOf, Covered, SpeaksOf;
    SpeaksOfIs(cs[n], va);
    assert forall i :: 0 <= i < n ==> cs[..n + 1][i] == cs[..n][i];
    assert cs[..n + 1][n] == cs[n];
  }

  /** What `Warnings.__init__` collects: the addresses named, and every extent, in order. */
  method Collect(cs: seq<Contradiction>) returns (names: set<int>, spans: seq<Span>)
    requires forall i :: 0 <= i < |cs| && cs[i].End? ==> cs[i].ends != []
    ensures forall va :: va in names || Covered(spans, va) <==> Warned(cs, va)
  {
    hide NamedBy, SpansOf, Covered, Warned;
    names, spans := {}, [];
    forall va ensures !Covered([], va) && !Warned(cs[..0], va) {
      NothingWarned(cs, va);
    }
    for i := 0 to |cs|
      invariant forall va :: va in names || Covered(spans, va) <==> Warned(cs[..i], va)
    {
      forall va
        ensures Covered(spans + SpansOf(cs[i]), va) <==> Covered(spans, va) || Covered(SpansOf(cs[i]), va)
        ensures Warned(cs[..i + 1], va) <==> Warned(cs[..i], va) || va in NamedBy(cs[i]) || Covered(SpansOf(cs[i]), va)
      {
        CoveredConcat(spans, SpansOf(cs[i]), va);
        WarnedGrows(cs, i, va);
      }
      names := names + NamedBy(cs[i]);
      spans := spans + SpansOf(cs[i]);
    }
    assert cs[..|cs|] == cs;
  }

  lemma NothingWarned(cs: seq<Contradiction>, va: int)
    requires forall i :: 0 <= i < |cs| && cs[i].End? ==> cs[i].ends != []
    ensures !Covered([], va) && !Warned(cs[..0], va)
  {
  }

  /** `Warnings`. */
  class Warnings {
    var named: set<int>
    var merged: seq<Span>

    constructor (cs: seq<Contradiction>)
      requires forall i :: 0 <= i < |cs| && cs[i].End? ==> cs[i].ends != []
      ensures forall va :: Covers(va) <==> Warned(cs, va)
    {
      hide Warned, Covered, InMerged;
      var names, spans := Collect(cs);
      var m := MergeSpans(spans);
      named, merged := names, m;
      new;
      forall va ensures InMerged(merged, va) <==> Covered(spans, va) {
        FastFormExact(spans, va);
      }
    }

    /** Whether a warning speaks of `va`. */
    predicate Covers(va: int)
      reads this
    {
      va in named || InMerged(merged, va)
    }
  }

  lemma CoveredConcat(xs: seq<Span>, ys: seq<Span>, va: int)
    ensures Covered(xs + ys, va) <==> Covered(xs, va) || Covered(ys, va)
  {
    if Covered(xs, va) {
      var i :| 0 <= i < |xs| && Holds(xs[i], va);
      assert (xs + ys)[i] == xs[i];
    }
    if Covered(ys, va) {
      var i :| 0 <= i < |ys| && Holds(ys[i], va);
      assert (xs + ys)[|xs| + i] == ys[i];
    }
  }

  // --- the extent an address lies inside -----------------------------------

  /** A truth extent and its owner, -1 where the range itself does not say. */
  datatype Extent = Extent(lo: int, hi: int, owner: int)

  const NO_OWNER: int := -1
  const FAR: int := 0x10_0000

  predicate Inside(e: Extent, va: int) { e.lo < va < e.hi }

  /** As the Python tuples are ordered. */
  predicate ExtentLe(a: Extent, b: Extent) {
    a.lo < b.lo || (a.lo == b.lo && (a.hi < b.hi || (a.hi == b.hi && a.owner <= b.owner)))
  }

  predicate Better(best: Option<Extent>, e: Extent) {
    best.None? || (e.owner != NO_OWNER && best.value.owner == NO_OWNER)
  }

  /** The backward scan below index `n`. */
  function ScanDown(spans: seq<Extent>, va: int, n: nat, best: Option<Extent>): Option<Extent>
    requires n <= |spans|
  {
    if n == 0 then best
    else
      var e := spans[n - 1];
      var best' := if Inside(e, va) && Better(best, e) then Some(e) else best;
      if va - e.lo > FAR then best' else ScanDown(spans, va, n - 1, best')
  }

  function ExtentLows(spans: seq<Extent>): (r: seq<int>)
    ensures |r| == |spans| && forall i :: 0 <= i < |spans| ==> r[i] == spans[i].lo
  {
    seq(|spans|, i requires 0 <= i < |spans| => spans[i].lo)
  }

  function Containing(spans: seq<Extent>, va: int): Option<Extent> {
    ScanDown(spans, va, BisectRight(ExtentLows(spans), va), None)
  }

  method FindContaining(spans: seq<Extent>, va: int) returns (best: Option<Extent>)
    ensures best == Containing(spans, va)
  {
    var j := BisectRight(ExtentLows(spans), va);
    best := None;
    while j > 0
      invariant 0 <= j <= |spans|
      invariant Containing(spans, va) == ScanDown(spans, va, j, best)
    {
      j := j - 1;
      var e := spans[j];
      if e.lo < va < e.hi {
        if best.None? || (e.owner != NO_OWNER && best.value.owner == NO_OWNER) {
          best := Some(e);
        }
      }
      if va - e.lo > FAR { break; }
    }
  }

  /** The full scan's answer: the last extent with an owner that holds `va` inside, or where none has an
      owner the last one that does. */
  ghost predicate IsContaining(spans: seq<Extent>, from: nat, va: int, r: Option<Extent>) {
    match r
    case None => forall j :: from <= j < |spans| ==> !Inside(spans[j], va)
    case Some(e) =>
      exists k ::
        && from <= k < |spans| && spans[k] == e && Inside(e, va)
        && (e.owner != NO_OWNER ==> forall j :: k < j < |spans| && Inside(spans[j], va) ==> spans[j].owner == NO_OWNER)
        && (e.owner == NO_OWNER ==> forall j :: from <= j < |spans| && Inside(spans[j], va) ==> spans[j].owner == NO_OWNER && j <= k)
  }

  predicate ByLow(spans: seq<Extent>) {
    forall i, j :: 0 <= i < j < |spans| ==> spans[i].lo <= spans[j].lo
  }

  /** The scan answers for the extents it reached; it stops early only at the first one that starts too far
      below. */
  lemma {:induction false} ScanReaches(spans: seq<Extent>, va: int, n: nat, best: Option<Extent>) returns (stop: nat)
    requires n <= |spans| && IsContaining(spans, n, va, best)
    ensures stop <= n && IsContaining(spans, stop, va, ScanDown(spans, va, n, best))
    ensures stop > 0 ==> stop < |spans| && va - spans[stop].lo > FAR
    ensures forall j :: stop < j < n ==> va - spans[j].lo <= FAR
  {
    if n == 0 {
      stop := 0;
    } else {
      var e := spans[n - 1];
      var best' := if Inside(e, va) && Better(best, e) then Some(e) else best;
      ScanStep(spans, va, n, best);
      if va - e.lo > FAR {
        stop := n - 1;
      } else {
        stop := ScanReaches(spans, va, n - 1, best');
      }
    }
  }

  lemma ScanStep(spans: seq<Extent>, va: int, n: nat, best: Option<Extent>)
    requires 0 < n <= |spans| && IsContaining(spans, n, va, best)
    ensures var e := spans[n - 1];
            IsContaining(spans, n - 1, va, if Inside(e, va) && Better(best, e) then Some(e) else best)
  {
    var e := spans[n - 1];
    if Inside(e, va) && Better(best, e) {
      assert spans[n - 1] == e;
    } else if best.Some? {
      var b := best.value;
      var k :| && n <= k < |spans| && spans[k] == b && Inside(b, va)
               && (b.owner != NO_OWNER ==> forall j :: k < j < |spans| && Inside(spans[j], va) ==> spans[j].owner == NO_OWNER)
               && (b.owner == NO_OWNER ==> forall j :: n <= j < |spans| && Inside(spans[j], va) ==> spans[j].owner == NO_OWNER && j <= k);
      assert n - 1 <= k < |spans|;
    }
  }

  /** Nothing above the bisection point can hold `va`. */
  lemma AboveBisection(spans: seq<Extent>, va: int)
    requires ByLow(spans)
    ensures IsContaining(spans, BisectRight(ExtentLows(spans), va), va, None)
  {
    BisectRightParts(ExtentLows(spans), va);
    assert forall j :: 0 <= j < |spans| ==> ExtentLows(spans)[j] == spans[j].lo;
  }

  /** Extent `i` is out of the scan's reach: the one behind it in the list starts too far below `va`. */
  predicate Cut(spans: seq<Extent>, va: int, i: int) {
    0 <= i < |spans| - 1 && va - spans[i + 1].lo > FAR
  }

  /** An extent within reach holds `va` too, and the full scan would not prefer extent `i` to it. */
  predicate Outranked(spans: seq<Extent>, va: int, i: int)
    requires 0 <= i < |spans|
  {
    exists k :: i < k < |spans| && !Cut(spans, va, k) && Inside(spans[k], va)
                && (spans[k].owner != NO_OWNER || spans[i].owner == NO_OWNER)
  }

  /** The extents out of reach are those below the place the scan stops at. */
  lemma ReachedFrom(spans: seq<Extent>, va: int) returns (stop: nat)
    requires ByLow(spans)
    ensures stop <= |spans| && IsContaining(spans, stop, va, Containing(spans, va))
    ensures forall i :: 0 <= i < |spans| ==> (Cut(spans, va, i) <==> i < stop)
  {
    hide IsContaining;
    var n := BisectRight(ExtentLows(spans), va);
    AboveBisection(spans, va);
    stop := ScanReaches(spans, va, n, None);
    BisectRightParts(ExtentLows(spans), va);
    assert forall j :: n <= j < |spans| ==> ExtentLows(spans)[j] == spans[j].lo > va;
  }

  /** The early stop finds what the full scan finds if and only if every extent out of its reach that holds
      `va` is outranked by one within reach. */
  lemma EarlyStopExactly(spans: seq<Extent>, va: int)
    requires ByLow(spans)
    ensures IsContaining(spans, 0, va, Containing(spans, va)) <==>
            forall i :: 0 <= i < |spans| && Cut(spans, va, i) && Inside(spans[i], va) ==> Outranked(spans, va, i)
  {
    hide Containing, ByLow;
    var stop := ReachedFrom(spans, va);
    AnswerBelow(spans, va, stop, Containing(spans, va));
  }

  /** An answer for the extents from `stop` on is one for all when those below are outranked, and only then. */
  lemma AnswerBelow(spans: seq<Extent>, va: int, stop: nat, r: Option<Extent>)
    requires stop <= |spans| && IsContaining(spans, stop, va, r)
    requires forall i :: 0 <= i < |spans| ==> (Cut(spans, va, i) <==> i < stop)
    ensures IsContaining(spans, 0, va, r) <==>
            forall i :: 0 <= i < |spans| && Cut(spans, va, i) && Inside(spans[i], va) ==> Outranked(spans, va, i)
  {
    hide Cut;
    if r.Some? {
      var e := r.value;
      var k :| && stop <= k < |spans| && spans[k] == e && Inside(e, va)
               && (e.owner != NO_OWNER ==> forall j :: k < j < |spans| && Inside(spans[j], va) ==> spans[j].owner == NO_OWNER)
               && (e.owner == NO_OWNER ==> forall j :: stop <= j < |spans| && Inside(spans[j], va) ==> spans[j].owner == NO_OWNER && j <= k);
      assert forall i :: 0 <= i < stop && (e.owner != NO_OWNER || spans[i].owner == NO_OWNER) ==> Outranked(spans, va, i);
    }
  }

  /** With no extent longer than 1 MiB and a byte nothing out of reach holds `va`, so the early stop finds
      what the full scan finds. */
  lemma EarlyStopExact(spans: seq<Extent>, va: int)
    requires ByLow(spans) && forall j :: 0 <= j < |spans| ==> spans[j].hi - spans[j].lo <= 0x10_0001
    ensures IsContaining(spans, 0, va, Containing(spans, va))
  {
    EarlyStopExactly(spans, va);
  }

  lemma ExtentOrder()
    ensures TotalOrder(ExtentLe)
  {
  }

  /** `Truth.containing` over the extents in any order, none longer than 1 MiB and a byte: it answers exactly
      when some extent holds `va` strictly inside, with one that does, and with an owned one when there is one. */
  lemma ContainingExact(extents: seq<Extent>, va: int)
    requires forall j :: 0 <= j < |extents| ==> extents[j].hi - extents[j].lo <= 0x10_0001
    ensures var r := Containing(Sort(ExtentLe, extents), va);
            && (r.Some? <==> exists e :: e in extents && e.lo < va < e.hi)
            && (r.Some? ==> r.value in extents && r.value.lo < va < r.value.hi)
            && (r.Some? && r.value.owner == -1 ==> forall e :: e in extents && e.lo < va < e.hi ==> e.owner == -1)
  {
    hide Sort, Containing;
    var spans := Sort(ExtentLe, extents);
    ExtentOrder();
    SortSorted(ExtentLe, extents);
    forall e ensures e in spans <==> e in extents {
      SortMembers(ExtentLe, extents, e);
    }
    assert forall j :: 0 <= j < |spans| ==> spans[j] in extents;
    EarlyStopExact(spans, va);
    forall e | e in extents && Inside(e, va) ensures exists j :: 0 <= j < |spans| && spans[j] == e {
      assert e in spans;
    }
  }

  /** The bound is needed: a longer extent behind a nearer start is missed. */
  lemma EarlyStopMisses()
    ensures var spans := [Extent(0, 0x10_0003, 7), Extent(1, 2, 8)];
            ByLow(spans) && Inside(spans[0], 0x10_0002) && Containing(spans, 0x10_0002) == None
  {
    var spans := [Extent(0, 0x10_0003, 7), Extent(1, 2, 8)];
    BisectRightParts(ExtentLows(spans), 0x10_0002);
    assert ExtentLows(spans)[0] == 0 && ExtentLows(spans)[1] == 1;
    assert BisectRight(ExtentLows(spans), 0x10_0002) == 2;
  }
}
