/** The lies about FDEs: the boundary each is made at, the edit of the record list, what it does to the
    coverage of every address, and the check that it happened. */
module FdeEdits {
  import opened Bytes
  import opened EhFrame

  // --- the place of the lie ------------------------------------------------

  /** `bisect.bisect_left` on an ascending list. */
  function BisectLeft(s: seq<int>, x: int): (n: nat)
    ensures n <= |s|
  {
    if s == [] || s[0] >= x then 0 else 1 + BisectLeft(s[1..], x)
  }

  predicate Ascending(s: seq<int>) {
    forall i, j :: 0 <= i < j < |s| ==> s[i] < s[j]
  }

  lemma {:induction false} BisectLeftParts(s: seq<int>, x: int)
    requires Ascending(s)
    ensures forall i :: 0 <= i < |s| ==> (s[i] < x <==> i < BisectLeft(s, x))
  {
    if s != [] && s[0] < x {
      BisectLeftParts(s[1..], x);
      assert forall i :: 1 <= i < |s| ==> s[i] == s[1..][i - 1];
    }
  }

  function Distance(a: int, b: int): int { if a < b then b - a else a - b }

  /** The first of those nearest `mid`, as `min` picks it. */
  function Closest(s: seq<int>, mid: int): (r: int)
    requires s != []
    ensures r in s && forall a :: a in s ==> Distance(r, mid) <= Distance(a, mid)
    ensures Ascending(s) ==> forall a :: a in s && Distance(a, mid) == Distance(r, mid) ==> r <= a
  {
    if |s| == 1 then s[0]
    else
      var c := Closest(s[1..], mid);
      if Distance(s[0], mid) <= Distance(c, mid) then s[0] else c
  }

  /** The instructions of a function, by address. */
  function Body(addrs: seq<int>, lo: int, hi: int): seq<int> {
    var i, j := BisectLeft(addrs, lo), BisectLeft(addrs, hi);
    if i <= j then addrs[i..j] else []
  }

  function Wide(body: seq<int>, size: map<int, nat>): (r: seq<int>)
    ensures forall a :: a in r <==> a in body && a in size && size[a] >= 2
  {
    if body == [] then []
    else (if body[0] in size && size[body[0]] >= 2 then [body[0]] else []) + Wide(body[1..], size)
  }

  /** `_insn_near_middle`: a true boundary inside the function, and an address inside an instruction. */
  function NearMiddle(addrs: seq<int>, size: map<int, nat>, lo: int, hi: int, aarch64: bool): Option<(int, int)> {
    var body := Body(addrs, lo, hi);
    if |body| < 2 then None
    else
      var mid := (lo + hi) / 2;
      var wide := Wide(body, size);
      if wide == [] then None
      else Some((Closest(body[1..], mid), Closest(wide, mid) + if aarch64 then 2 else 1))
  }

  /** The body is the addresses from `lo` up to `hi`, in order. */
  lemma BodyIs(addrs: seq<int>, lo: int, hi: int)
    requires Ascending(addrs)
    ensures Ascending(Body(addrs, lo, hi))
    ensures forall a :: a in Body(addrs, lo, hi) <==> a in addrs && lo <= a < hi
  {
    BisectLeftParts(addrs, lo);
    BisectLeftParts(addrs, hi);
    var i, j := BisectLeft(addrs, lo), BisectLeft(addrs, hi);
    forall a | a in addrs && lo <= a < hi ensures a in Body(addrs, lo, hi) {
      var k :| 0 <= k < |addrs| && addrs[k] == a;
      assert addrs[i..j][k - i] == a;
    }
  }

  /** An instruction of the function that has two bytes or more. */
  predicate IsWide(addrs: seq<int>, size: map<int, nat>, lo: int, hi: int, a: int) {
    a in addrs && lo <= a < hi && a in size && size[a] >= 2
  }

  /** The boundary is an instruction strictly inside the function, and no instruction but the first is
      nearer the middle; the other address is inside the instruction of two bytes or more that is nearest it. */
  lemma BoundaryInside(addrs: seq<int>, size: map<int, nat>, lo: int, hi: int, aarch64: bool)
    requires Ascending(addrs) && NearMiddle(addrs, size, lo, hi, aarch64).Some?
    ensures var (boundary, inside) := NearMiddle(addrs, size, lo, hi, aarch64).value;
            var first := Body(addrs, lo, hi)[0];
            && boundary in addrs && lo <= first < boundary < hi
            && (forall a :: a in addrs && first < a < hi ==> Distance(boundary, (lo + hi) / 2) <= Distance(a, (lo + hi) / 2))
            && exists a :: && IsWide(addrs, size, lo, hi, a) && inside == a + (if aarch64 then 2 else 1)
                           && forall c :: IsWide(addrs, size, lo, hi, c) ==> Distance(a, (lo + hi) / 2) <= Distance(c, (lo + hi) / 2)
  {
    hide Body, Wide, Closest;
    BodyIs(addrs, lo, hi);
    var body := Body(addrs, lo, hi);
    var tail := body[1..];
    assert body[0] in body && forall a :: a in tail <==> a in body && a != body[0];
    assert forall k :: 0 <= k < |tail| ==> tail[k] == body[k + 1] > body[0];
    assert NearMiddle(addrs, size, lo, hi, aarch64).value.0 in tail;
    var a := Closest(Wide(body, size), (lo + hi) / 2);
    assert IsWide(addrs, size, lo, hi, a);
    assert forall c :: IsWide(addrs, size, lo, hi, c) ==> c in Wide(body, size);
  }

  /** A place for a lie: a function's extent, a boundary inside it, and the extent of the function behind it. */
  datatype Target = Target(start: int, end: int, boundary: int, next: Option<(int, int)>)

  /** What every target satisfies: the extent is stated, the boundary is strictly inside, and so is the
      extent of the function behind it, where it is recorded. */
  predicate GoodTarget(t: Target, stated: map<int, int>) {
    && t.start in stated && stated[t.start] == t.end && t.start < t.boundary < t.end
    && (t.next.Some? ==> t.start < t.next.value.0 && t.next.value.0 in stated && stated[t.next.value.0] == t.next.value.1)
  }

  predicate StartsAscend(ts: seq<Target>) {
    forall i, j :: 0 <= i < j < |ts| ==> ts[i].start < ts[j].start
  }

  /** What `read_before` makes of its `i`-th function. */
  function TargetAt(funcs: seq<(int, int)>, i: nat, stated: map<int, int>, addrs: seq<int>, size: map<int, nat>, aarch64: bool): Option<Target>
    requires i < |funcs|
  {
    var f := funcs[i];
    var near := NearMiddle(addrs, size, f.0, f.1, aarch64);
    if f.0 !in stated || stated[f.0] != f.1 || near.None? then None
    else
      var next := if i + 1 < |funcs| && funcs[i + 1].0 in stated && stated[funcs[i + 1].0] == funcs[i + 1].1
                  then Some(funcs[i + 1]) else None;
      Some(Target(f.0, f.1, near.value.0, next))
  }

  function Targets(funcs: seq<(int, int)>, n: nat, stated: map<int, int>, addrs: seq<int>, size: map<int, nat>, aarch64: bool): seq<Target>
    requires n <= |funcs|
  {
    if n == 0 then []
    else
      var t := TargetAt(funcs, n - 1, stated, addrs, size, aarch64);
      Targets(funcs, n - 1, stated, addrs, size, aarch64) + if t.Some? then [t.value] else []
  }

  method ReadBefore(funcs: seq<(int, int)>, stated: map<int, int>, addrs: seq<int>, size: map<int, nat>, aarch64: bool)
    returns (ts: seq<Target>)
    ensures ts == Targets(funcs, |funcs|, stated, addrs, size, aarch64)
  {
    ts := [];
    for i := 0 to |funcs|
      invariant ts == Targets(funcs, i, stated, addrs, size, aarch64)
    {
      var f := funcs[i];
      if f.0 !in stated || stated[f.0] != f.1 { continue; }
      var near := NearMiddle(addrs, size, f.0, f.1, aarch64);
      if near.None? { continue; }
      var next := None;
      if i + 1 < |funcs| {
        var n := funcs[i + 1];
        if n.0 in stated && stated[n.0] == n.1 { next := Some(n); }
      }
      ts := ts + [Target(f.0, f.1, near.value.0, next)];
    }
  }

  /** Every target is good, and the targets ascend as the functions do. */
  lemma {:induction false} TargetsGood(funcs: seq<(int, int)>, n: nat, stated: map<int, int>, addrs: seq<int>, size: map<int, nat>, aarch64: bool)
    requires forall i, j :: 0 <= i < j < |funcs| ==> funcs[i].0 < funcs[j].0
    requires Ascending(addrs) && n <= |funcs|
    ensures var ts := Targets(funcs, n, stated, addrs, size, aarch64);
            && StartsAscend(ts)
            && forall t :: t in ts ==> GoodTarget(t, stated) && (n < |funcs| ==> t.start < funcs[n].0)
  {
    hide NearMiddle, Ascending, TargetAt, GoodTarget;
    if n > 0 {
      TargetsGood(funcs, n - 1, stated, addrs, size, aarch64);
      if TargetAt(funcs, n - 1, stated, addrs, size, aarch64).Some? {
        OneTargetGood(funcs, n - 1, stated, addrs, size, aarch64);
      }
    }
  }

  lemma OneTargetGood(funcs: seq<(int, int)>, i: nat, stated: map<int, int>, addrs: seq<int>, size: map<int, nat>, aarch64: bool)
    requires forall i, j :: 0 <= i < j < |funcs| ==> funcs[i].0 < funcs[j].0
    requires Ascending(addrs) && i < |funcs| && TargetAt(funcs, i, stated, addrs, size, aarch64).Some?
    ensures var t := TargetAt(funcs, i, stated, addrs, size, aarch64).value; GoodTarget(t, stated) && t.start == funcs[i].0
  {
    hide NearMiddle, Ascending;
    BoundaryInside(addrs, size, funcs[i].0, funcs[i].1, aarch64);
  }

  /** A function a lie can be made on: two instructions in it, and one of two bytes or more. */
  ghost predicate Divisible(addrs: seq<int>, size: map<int, nat>, lo: int, hi: int) {
    && (exists a, b :: a in addrs && b in addrs && lo <= a < b < hi)
    && exists a :: a in addrs && lo <= a < hi && a in size && size[a] >= 2
  }

  /** The boundary of one: an instruction that is not its first, none other nearer the middle, and of two as
      near the lower one. */
  ghost predicate IsBoundary(addrs: seq<int>, lo: int, hi: int, at: int) {
    var mid := (lo + hi) / 2;
    && Later(addrs, lo, hi, at)
    && forall a :: Later(addrs, lo, hi, a) ==>
         Distance(at, mid) < Distance(a, mid) || (Distance(at, mid) == Distance(a, mid) && at <= a)
  }

  /** An instruction of the function that is not its first. */
  ghost predicate Later(addrs: seq<int>, lo: int, hi: int, at: int) {
    at in addrs && at < hi && exists a :: a in addrs && lo <= a < at
  }

  /** The body behind its first instruction. */
  lemma TailIs(addrs: seq<int>, lo: int, hi: int)
    requires Ascending(addrs) && |Body(addrs, lo, hi)| >= 2
    ensures Ascending(Body(addrs, lo, hi)[1..])
    ensures forall a :: a in Body(addrs, lo, hi)[1..] <==> Later(addrs, lo, hi, a)
  {
    hide Body;
    BodyIs(addrs, lo, hi);
    var body := Body(addrs, lo, hi);
    var tail := body[1..];
    assert body[0] in body;
    assert forall k :: 0 <= k < |tail| ==> tail[k] == body[k + 1] > body[0];
    assert forall a :: a in tail <==> a in body && a != body[0];
    forall a | Later(addrs, lo, hi, a) ensures a in tail {
      var c :| c in addrs && lo <= c < a;
      assert c in body && a in body;
    }
  }

  lemma TwoInBody(addrs: seq<int>, lo: int, hi: int)
    requires Ascending(addrs)
    ensures |Body(addrs, lo, hi)| >= 2 <==> exists a, b :: a in addrs && b in addrs && lo <= a < b < hi
  {
    hide Body;
    BodyIs(addrs, lo, hi);
    var body := Body(addrs, lo, hi);
    if |body| >= 2 {
      assert body[0] in body && body[1] in body;
    }
    if a, b :| a in addrs && b in addrs && lo <= a < b < hi {
      assert a in body && b in body;
      var i, j :| 0 <= i < |body| && 0 <= j < |body| && body[i] == a && body[j] == b;
      assert i != j;
    }
  }

  lemma ClosestIsBoundary(addrs: seq<int>, lo: int, hi: int, at: int)
    requires Ascending(addrs) && |Body(addrs, lo, hi)| >= 2
    ensures Closest(Body(addrs, lo, hi)[1..], (lo + hi) / 2) == at <==> IsBoundary(addrs, lo, hi, at)
  {
    hide Body, Closest, Later;
    TailIs(addrs, lo, hi);
    assert Later(addrs, lo, hi, Closest(Body(addrs, lo, hi)[1..], (lo + hi) / 2));
  }

  /** The boundary search, exactly. */
  lemma NearMiddleIs(addrs: seq<int>, size: map<int, nat>, lo: int, hi: int, aarch64: bool, at: int)
    requires Ascending(addrs)
    ensures NearMiddle(addrs, size, lo, hi, aarch64).Some? <==> Divisible(addrs, size, lo, hi)
    ensures Divisible(addrs, size, lo, hi) ==>
              (NearMiddle(addrs, size, lo, hi, aarch64).value.0 == at <==> IsBoundary(addrs, lo, hi, at))
  {
    hide Body, Wide, Closest, IsBoundary;
    BodyIs(addrs, lo, hi);
    TwoInBody(addrs, lo, hi);
    WideNone(Body(addrs, lo, hi), size);
    if |Body(addrs, lo, hi)| >= 2 {
      ClosestIsBoundary(addrs, lo, hi, at);
    }
  }

  lemma WideNone(body: seq<int>, size: map<int, nat>)
    ensures Wide(body, size) == [] <==> forall a :: a in body ==> !(a in size && size[a] >= 2)
  {
    hide Wide;
    var w := Wide(body, size);
    if w != [] {
      var a := w[0];
      assert a in w;
      assert a in body && a in size && size[a] >= 2;
    }
  }

  /** The function behind the `i`-th, where there is one and an FDE states exactly its extent. */
  function StatedNext(funcs: seq<(int, int)>, i: nat, stated: map<int, int>): (next: Option<(int, int)>)
    requires i < |funcs|
    ensures next.Some? <==> i + 1 < |funcs| && Stating(stated, funcs[i + 1])
    ensures next.Some? ==> next.value == funcs[i + 1]
  {
    if i + 1 < |funcs| && Stating(stated, funcs[i + 1]) then Some(funcs[i + 1]) else None
  }

  predicate Stating(stated: map<int, int>, f: (int, int)) { f.0 in stated && stated[f.0] == f.1 }

  /** What makes `t` the target at the `i`-th function. */
  ghost predicate IsTarget(t: Target, funcs: seq<(int, int)>, i: nat, stated: map<int, int>, addrs: seq<int>, size: map<int, nat>) {
    && i < |funcs| && (t.start, t.end) == funcs[i] && Stating(stated, funcs[i])
    && Divisible(addrs, size, t.start, t.end) && IsBoundary(addrs, t.start, t.end, t.boundary)
    && t.next == StatedNext(funcs, i, stated)
  }

  lemma TargetAtIs(funcs: seq<(int, int)>, i: nat, stated: map<int, int>, addrs: seq<int>, size: map<int, nat>, aarch64: bool, t: Target)
    requires Ascending(addrs) && i < |funcs|
    ensures TargetAt(funcs, i, stated, addrs, size, aarch64) == Some(t) <==> IsTarget(t, funcs, i, stated, addrs, size)
  {
    hide NearMiddle, Divisible, IsBoundary, Ascending;
    NearMiddleIs(addrs, size, funcs[i].0, funcs[i].1, aarch64, t.boundary);
  }

  /** Which functions become targets, and which of those have a next one: exactly those an FDE states and a
      boundary can be found in, each with the function behind it where an FDE states that one too. */
  lemma {:induction false} TargetsExactly(funcs: seq<(int, int)>, n: nat, stated: map<int, int>, addrs: seq<int>, size: map<int, nat>, aarch64: bool, t: Target)
    requires Ascending(addrs) && n <= |funcs|
    ensures t in Targets(funcs, n, stated, addrs, size, aarch64) <==>
            exists i :: 0 <= i < n && IsTarget(t, funcs, i, stated, addrs, size)
  {
    hide TargetAt, IsTarget, Ascending;
    if n > 0 {
      TargetsExactly(funcs, n - 1, stated, addrs, size, aarch64, t);
      TargetAtIs(funcs, n - 1, stated, addrs, size, aarch64, t);
    }
  }

  // --- the edits -----------------------------------------------------------

  /** `fde_add`, `fde_split`, `fde_repoint`, `fde_long`, `fde_short`, and `noeh` at a share. */
  datatype Edit = Add | Split | Repoint | Long | Short | Drop

  datatype Planted = Planted(target: Target, site: int, added: seq<(int, int)>, removed: seq<(int, int)>)

  /** The rest of a false record: an empty augmentation where the CIE has a `z`, then no-operations. */
  function FalseRest(hasZ: bool): seq<byte> {
    (if hasZ then [0] else []) + Zeros(if hasZ then 7 else 8)
  }

  /** `false_fde`: an FDE with a range and no rules. Every CIE the parser accepts has a `z`. */
  function FalseFde(cie: nat, start: int, length: int): Record {
    Fde(cie, start, length, FalseRest(true))
  }

  /** A false record has the 24 bytes the linker keeps records to, whatever its CIE. */
  lemma FalseFdeSize(hasZ: bool)
    ensures FalseRest(hasZ) == Zeros(8)
    ensures forall cie: nat, start, length :: RecordSize(FalseFde(cie, start, length)) == 24
  {
  }

  /** The end of the function behind `t`, where one is recorded. */
  function NextEnd(t: Target): int { if t.next.Some? then t.next.value.1 else t.end }

  /** The records replacing the FDE of `t`. */
  function Replacement(k: Edit, t: Target, r: Record): (rs: seq<Record>)
    requires r.Fde?
    ensures forall i :: 0 <= i < |rs| ==> rs[i].Fde?
  {
    var extra := FalseFde(r.cie, t.boundary, t.end - t.boundary);
    match k
    case Add => [r, extra]
    case Split => [r.(length := t.boundary - t.start), extra]
    case Repoint => [r.(start := t.boundary, length := t.end - t.boundary)]
    case Long => [r.(length := NextEnd(t) - t.start)]
    case Short => [r.(length := t.boundary - t.start)]
    case Drop => []
  }

  function Plant(k: Edit, t: Target): Planted {
    match k
    case Add => Planted(t, t.boundary, [(t.boundary, t.end)], [])
    case Split => Planted(t, t.boundary, [(t.start, t.boundary), (t.boundary, t.end)], [(t.start, t.end)])
    case Repoint => Planted(t, t.boundary, [(t.boundary, t.end)], [(t.start, t.end)])
    case Long => Planted(t, if t.next.Some? then t.next.value.0 else t.end, [(t.start, NextEnd(t))], [(t.start, t.end)])
    case Short => Planted(t, t.boundary, [(t.start, t.boundary)], [(t.start, t.end)])
    case Drop => Planted(t, t.start, [], [(t.start, t.end)])
  }

  /** The chosen targets by start. */
  type Choice = m: map<int, Target> | forall s :: s in m ==> m[s].start == s witness map[]

  predicate Hit(r: Record, chosen: Choice) { r.Fde? && r.start in chosen }

  /** The edited record list. */
  function Edited(k: Edit, rs: seq<Record>, chosen: Choice): seq<Record> {
    if rs == [] then []
    else
      var last := rs[|rs| - 1];
      Edited(k, rs[..|rs| - 1], chosen) + if Hit(last, chosen) then Replacement(k, chosen[last.start], last) else [last]
  }

  /** The targets whose FDE was edited, in record order. */
  function Touched(rs: seq<Record>, chosen: Choice): (ts: seq<Target>)
    ensures forall t :: t in ts ==> t.start in chosen && chosen[t.start] == t
  {
    if rs == [] then []
    else
      var last := rs[|rs| - 1];
      Touched(rs[..|rs| - 1], chosen) + if Hit(last, chosen) then [chosen[last.start]] else []
  }

  /** `_edit_fdes`, between reading the records and writing them. */
  method EditFdes(k: Edit, rs: seq<Record>, chosen: Choice) returns (out: seq<Record>, planted: seq<Planted>)
    ensures out == Edited(k, rs, chosen)
    ensures |planted| == |Touched(rs, chosen)|
    ensures forall i :: 0 <= i < |planted| ==> planted[i] == Plant(k, Touched(rs, chosen)[i])
  {
    hide Replacement, Plant;
    out, planted := [], [];
    for i := 0 to |rs|
      invariant out == Edited(k, rs[..i], chosen) && |planted| == |Touched(rs[..i], chosen)|
      invariant forall j :: 0 <= j < |planted| ==> planted[j] == Plant(k, Touched(rs[..i], chosen)[j])
    {
      assert rs[..i + 1][..i] == rs[..i];
      if Hit(rs[i], chosen) {
        var t := chosen[rs[i].start];
        out := out + Replacement(k, t, rs[i]);
        planted := planted + [Plant(k, t)];
      } else {
        out := out + [rs[i]];
      }
    }
    assert rs[..|rs|] == rs;
  }

  // --- what an edit keeps --------------------------------------------------

  /** What stands in the place of one record: itself where it is not hit; otherwise an FDE with its CIE and
      everything that trailed its range, over the range the lie gives it; behind that, for a second claim, an
      FDE of the same CIE with eight zero bytes; and nothing where it is dropped. */
  ghost predicate InPlaceOf(k: Edit, r: Record, part: seq<Record>, chosen: Choice) {
    if !Hit(r, chosen) then part == [r]
    else
      var t := chosen[r.start];
      match k
      case Drop => part == []
      case Add => |part| == 2 && part[0] == r && Extra(part[1], r, t)
      case Split => |part| == 2 && Keeps(part[0], r, t.start, t.boundary) && Extra(part[1], r, t)
      case Repoint => |part| == 1 && Keeps(part[0], r, t.boundary, t.end)
      case Long => |part| == 1 && Keeps(part[0], r, t.start, NextEnd(t))
      case Short => |part| == 1 && Keeps(part[0], r, t.start, t.boundary)
  }

  /** `x` is the FDE `r` over [lo, hi): its CIE and its call-frame instructions are those of `r`. */
  predicate Keeps(x: Record, r: Record, lo: int, hi: int)
    requires r.Fde?
  {
    x.Fde? && x.cie == r.cie && x.rest == r.rest && x.start == lo && x.start + x.length == hi
  }

  /** `x` is the second claim beside `r`. */
  predicate Extra(x: Record, r: Record, t: Target)
    requires r.Fde?
  {
    x.Fde? && x.cie == r.cie && x.rest == Zeros(8) && x.start == t.boundary && x.start + x.length == t.end
  }

  /** What stands in the place of one record. */
  function Part(k: Edit, r: Record, chosen: Choice): seq<Record> {
    if Hit(r, chosen) then Replacement(k, chosen[r.start], r) else [r]
  }

  lemma PartIs(k: Edit, r: Record, chosen: Choice)
    ensures InPlaceOf(k, r, Part(k, r, chosen), chosen)
  {
    FalseFdeSize(true);
  }

  lemma EditedStep(k: Edit, rs: seq<Record>, chosen: Choice)
    requires rs != []
    ensures Edited(k, rs, chosen) == Edited(k, rs[..|rs| - 1], chosen) + Part(k, rs[|rs| - 1], chosen)
  {
    hide Replacement;
  }

  /** Where the record `i` begins in the edited list. */
  function PlaceOf(k: Edit, rs: seq<Record>, chosen: Choice, i: nat): nat
    requires i <= |rs|
  {
    |Edited(k, rs[..i], chosen)|
  }

  lemma Ends(k: Edit, rs: seq<Record>, chosen: Choice)
    ensures PlaceOf(k, rs, chosen, 0) == 0 && PlaceOf(k, rs, chosen, |rs|) == |Edited(k, rs, chosen)|
  {
    assert rs[..|rs|] == rs && rs[..0] == [];
  }

  /** The list `out` is, record by record and in order, what stands in the place of each of `rs`; and its CIEs
      are those of `rs`. */
  ghost predicate RecordsKept(k: Edit, rs: seq<Record>, chosen: Choice, out: seq<Record>) {
    && PlaceOf(k, rs, chosen, 0) == 0 && PlaceOf(k, rs, chosen, |rs|) == |out| && Cies(out) == Cies(rs)
    && forall i :: 0 <= i < |rs| ==>
         var (lo, hi) := (PlaceOf(k, rs, chosen, i), PlaceOf(k, rs, chosen, i + 1));
         lo <= hi <= |out| && InPlaceOf(k, rs[i], out[lo..hi], chosen)
  }

  /** What an edit keeps, of every list and every choice. */
  lemma EditKeeps(k: Edit, rs: seq<Record>, chosen: Choice)
    ensures RecordsKept(k, rs, chosen, Edited(k, rs, chosen))
  {
    hide InPlaceOf, Edited, Cies, PlaceOf;
    Ends(k, rs, chosen);
    EditKeepsCies(k, rs, chosen);
    forall i | 0 <= i < |rs|
      ensures var (lo, hi) := (PlaceOf(k, rs, chosen, i), PlaceOf(k, rs, chosen, i + 1));
              lo <= hi <= |Edited(k, rs, chosen)| && InPlaceOf(k, rs[i], Edited(k, rs, chosen)[lo..hi], chosen)
    {
      EditedParts(k, rs, chosen, i);
    }
  }

  lemma {:induction false} EditedParts(k: Edit, rs: seq<Record>, chosen: Choice, i: nat)
    requires i < |rs|
    ensures var (out, lo, hi) := (Edited(k, rs, chosen), PlaceOf(k, rs, chosen, i), PlaceOf(k, rs, chosen, i + 1));
            lo <= hi <= |out| && InPlaceOf(k, rs[i], out[lo..hi], chosen)
    decreases |rs|
  {
    hide InPlaceOf, Part, Edited, Hit;
    var n := |rs| - 1;
    Ends(k, rs, chosen);
    EditedStep(k, rs, chosen);
    var (out, before, part) := (Edited(k, rs, chosen), Edited(k, rs[..n], chosen), Part(k, rs[n], chosen));
    if i < n {
      EditedParts(k, rs[..n], chosen, i);
      assert rs[..n][..i] == rs[..i] && rs[..n][..i + 1] == rs[..i + 1] && rs[..n][i] == rs[i];
      var (lo, hi) := (PlaceOf(k, rs, chosen, i), PlaceOf(k, rs, chosen, i + 1));
      InFront(before, part, lo, hi);
    } else {
      PartIs(k, rs[n], chosen);
      assert rs[..n + 1] == rs;
      assert out[|before|..|out|] == part;
    }
  }

  /** The CIEs of a list, in order. */
  function Cies(rs: seq<Record>): seq<Record> {
    if rs == [] then [] else Cies(rs[..|rs| - 1]) + if rs[|rs| - 1].Cie? then [rs[|rs| - 1]] else []
  }

  lemma CiesAdd(rs: seq<Record>, r: Record)
    ensures Cies(rs + [r]) == if r.Cie? then Cies(rs) + [r] else Cies(rs)
  {
    assert (rs + [r])[..|rs|] == rs;
  }

  lemma LastOff(xs: seq<Record>, ys: seq<Record>)
    requires ys != []
    ensures var n := |ys| - 1; ys == ys[..n] + [ys[n]] && xs + ys == xs + ys[..n] + [ys[n]]
  {
  }

  lemma Associates(a: seq<Record>, b: seq<Record>, c: seq<Record>)
    ensures a + (b + c) == a + b + c
  {
  }

  lemma InFront(a: seq<Record>, b: seq<Record>, lo: nat, hi: nat)
    requires lo <= hi <= |a|
    ensures (a + b)[lo..hi] == a[lo..hi]
  {
  }

  lemma {:induction false} CiesConcat(xs: seq<Record>, ys: seq<Record>)
    ensures Cies(xs + ys) == Cies(xs) + Cies(ys)
  {
    if ys == [] {
      assert xs + ys == xs && Cies(xs) + [] == Cies(xs);
    } else {
      hide Cies;
      var n := |ys| - 1;
      CiesConcat(xs, ys[..n]);
      LastOff(xs, ys);
      CiesAdd(xs + ys[..n], ys[n]);
      CiesAdd(ys[..n], ys[n]);
      Associates(Cies(xs), Cies(ys[..n]), [ys[n]]);
    }
  }

  lemma {:induction false} NoCies(rs: seq<Record>)
    requires forall i :: 0 <= i < |rs| ==> rs[i].Fde?
    ensures Cies(rs) == []
  {
    if rs != [] {
      NoCies(rs[..|rs| - 1]);
    }
  }

  /** No edit adds, drops or reorders a CIE, so an FDE's ordinal names the CIE it named. */
  lemma {:induction false} EditKeepsCies(k: Edit, rs: seq<Record>, chosen: Choice)
    ensures Cies(Edited(k, rs, chosen)) == Cies(rs)
  {
    hide Replacement;
    if rs != [] {
      hide Edited, Cies;
      var n := |rs| - 1;
      EditKeepsCies(k, rs[..n], chosen);
      EditedStep(k, rs, chosen);
      CiesConcat(Edited(k, rs[..n], chosen), Part(k, rs[n], chosen));
      CiesAdd(rs[..n], rs[n]);
      assert rs == rs[..n] + [rs[n]];
      if Hit(rs[n], chosen) {
        NoCies(Part(k, rs[n], chosen));
      } else {
        CiesAdd([], rs[n]);
        NoCies([]);
        assert [] + [rs[n]] == [rs[n]];
      }
    }
  }

  // --- coverage ------------------------------------------------------------

  function In(lo: int, hi: int, a: int): int { if lo <= a < hi then 1 else 0 }

  function Covers(r: Record, a: int): int {
    if r.Fde? then In(r.start, r.start + r.length, a) else 0
  }

  /** How many FDE ranges hold the address `a`. */
  function Coverage(rs: seq<Record>, a: int): int {
    if rs == [] then 0 else Coverage(rs[..|rs| - 1], a) + Covers(rs[|rs| - 1], a)
  }

  lemma {:induction false} CoverageConcat(xs: seq<Record>, ys: seq<Record>, a: int)
    ensures Coverage(xs + ys, a) == Coverage(xs, a) + Coverage(ys, a)
  {
    if ys == [] {
      assert xs + ys == xs;
    } else {
      var n := |ys| - 1;
      CoverageConcat(xs, ys[..n], a);
      assert (xs + ys)[..|xs| + n] == xs + ys[..n];
    }
  }

  /** What each lie says it does to one function's addresses. */
  function Stated(k: Edit, t: Target, a: int): int {
    match k
    case Add => In(t.boundary, t.end, a)
    case Split => 0
    case Repoint => -In(t.start, t.boundary, a)
    case Long => In(t.end, NextEnd(t), a) - In(NextEnd(t), t.end, a)
    case Short => -In(t.boundary, t.end, a)
    case Drop => -In(t.start, t.end, a)
  }

  /** The site of a lie is in its function, strictly inside unless it is dropped, where what the lie states
      changes; of a split, where its second claim begins; of a range run on, the function it runs over. */
  lemma SiteIsWhereItLies(k: Edit, t: Target)
    requires t.start < t.boundary < t.end && (t.next.Some? ==> t.end <= t.next.value.0 < t.next.value.1)
    ensures var site := Plant(k, t).site;
            && (k != Long ==> t.start <= site < t.end) && (k in {Add, Split, Repoint, Short} ==> t.start < site)
            && (k in {Add, Repoint, Short, Drop} ==> Stated(k, t, site) != Stated(k, t, site - 1))
            && (k == Split ==> Plant(k, t).added[1].0 == site == Plant(k, t).added[0].1)
            && (k == Long && t.next.Some? ==> site == t.next.value.0 && Stated(k, t, site) == 1)
  {
  }

  function TotalStated(k: Edit, ts: seq<Target>, a: int): int {
    if ts == [] then 0 else TotalStated(k, ts[..|ts| - 1], a) + Stated(k, ts[|ts| - 1], a)
  }

  /** The target is the extent of its FDE, its boundary strictly inside, and the next function does not end
      before it starts. */
  predicate Exact(r: Record, chosen: Choice) {
    Hit(r, chosen) ==>
      var t := chosen[r.start];
      r.start + r.length == t.end && t.start < t.boundary < t.end && t.start <= NextEnd(t)
  }

  lemma ReplacementCoverage(k: Edit, r: Record, chosen: Choice, a: int)
    requires Hit(r, chosen) && Exact(r, chosen)
    ensures Coverage(Replacement(k, chosen[r.start], r), a) == Covers(r, a) + Stated(k, chosen[r.start], a)
  {
    var s := Replacement(k, chosen[r.start], r);
    if |s| == 1 {
      CoverageOne(s[0], a);
    } else if |s| == 2 {
      assert s == [s[0]] + [s[1]];
      CoverageConcat([s[0]], [s[1]], a);
      CoverageOne(s[0], a);
      CoverageOne(s[1], a);
    }
  }

  lemma CoverageOne(r: Record, a: int)
    ensures Coverage([r], a) == Covers(r, a)
  {
    assert [r][..0] == [];
  }

  lemma {:induction false} EditedCoverage(k: Edit, rs: seq<Record>, chosen: Choice, a: int)
    requires forall i :: 0 <= i < |rs| ==> Exact(rs[i], chosen)
    ensures Coverage(Edited(k, rs, chosen), a) == Coverage(rs, a) + TotalStated(k, Touched(rs, chosen), a)
  {
    hide Replacement, Stated, Exact, Covers;
    if rs != [] {
      var n := |rs| - 1;
      EditedCoverage(k, rs[..n], chosen, a);
      CoverageOne(rs[n], a);
      if Hit(rs[n], chosen) {
        TotalConcat(k, Touched(rs[..n], chosen), [chosen[rs[n].start]], a);
        TotalOne(k, chosen[rs[n].start], a);
      } else {
        assert Touched(rs, chosen) == Touched(rs[..n], chosen);
      }
      var more := if Hit(rs[n], chosen) then Replacement(k, chosen[rs[n].start], rs[n]) else [rs[n]];
      CoverageConcat(Edited(k, rs[..n], chosen), more, a);
      if Hit(rs[n], chosen) {
        ReplacementCoverage(k, rs[n], chosen, a);
      }
    }
  }

  // --- every chosen function once ------------------------------------------

  predicate DistinctStarts(rs: seq<Record>) {
    forall i, j :: 0 <= i < j < |rs| && rs[i].Fde? && rs[j].Fde? ==> rs[i].start != rs[j].start
  }

  predicate NoTwice(ts: seq<Target>) {
    forall i, j :: 0 <= i < j < |ts| ==> ts[i] != ts[j]
  }

  lemma {:induction false} TouchedOnce(rs: seq<Record>, chosen: Choice)
    requires DistinctStarts(rs)
    ensures NoTwice(Touched(rs, chosen))
    ensures forall t :: t in Touched(rs, chosen) <==> exists i :: 0 <= i < |rs| && Hit(rs[i], chosen) && chosen[rs[i].start] == t
  {
    if rs != [] {
      var n := |rs| - 1;
      var before := Touched(rs[..n], chosen);
      TouchedOnce(rs[..n], chosen);
      assert forall i :: 0 <= i < n ==> rs[..n][i] == rs[i];
      if Hit(rs[n], chosen) {
        var t := chosen[rs[n].start];
        assert t !in before;
        assert Touched(rs, chosen) == before + [t];
      } else {
        assert Touched(rs, chosen) == before;
      }
    }
  }

  lemma {:induction false} TotalConcat(k: Edit, xs: seq<Target>, ys: seq<Target>, a: int)
    ensures TotalStated(k, xs + ys, a) == TotalStated(k, xs, a) + TotalStated(k, ys, a)
  {
    if ys == [] {
      assert xs + ys == xs;
    } else {
      var n := |ys| - 1;
      TotalConcat(k, xs, ys[..n], a);
      assert (xs + ys)[..|xs| + n] == xs + ys[..n];
    }
  }

  lemma TotalOne(k: Edit, t: Target, a: int)
    ensures TotalStated(k, [t], a) == Stated(k, t, a)
  {
    assert [t][..0] == [];
  }

  /** A sum over a list with nothing twice depends on its members only. */
  lemma {:induction false} TotalOfMembers(k: Edit, xs: seq<Target>, ys: seq<Target>, a: int)
    requires NoTwice(xs) && NoTwice(ys) && forall t :: t in xs <==> t in ys
    ensures TotalStated(k, xs, a) == TotalStated(k, ys, a)
    decreases |xs|
  {
    hide TotalStated, NoTwice, Stated;
    assert ys != [] ==> ys[0] in ys;
    if xs == [] {
      assert ys == [];
    } else {
      var n := |xs| - 1;
      var t := xs[n];
      assert t in ys;
      var m :| 0 <= m < |ys| && ys[m] == t;
      RestMembers(xs, ys, m);
      TotalOfMembers(k, xs[..n], ys[..m] + ys[m + 1..], a);
      TotalWithout(k, ys, m, a);
      TotalWithout(k, xs, n, a);
      assert xs[..n] + xs[n + 1..] == xs[..n];
    }
  }

  /** A sum less one of its members. */
  lemma TotalWithout(k: Edit, ys: seq<Target>, m: nat, a: int)
    requires m < |ys|
    ensures TotalStated(k, ys, a) == TotalStated(k, ys[..m] + ys[m + 1..], a) + Stated(k, ys[m], a)
  {
    hide TotalStated, Stated;
    assert ys == ys[..m] + [ys[m]] + ys[m + 1..];
    TotalConcat(k, ys[..m] + [ys[m]], ys[m + 1..], a);
    TotalConcat(k, ys[..m], [ys[m]], a);
    TotalConcat(k, ys[..m], ys[m + 1..], a);
    TotalOne(k, ys[m], a);
  }

  lemma RestMembers(xs: seq<Target>, ys: seq<Target>, m: nat)
    requires NoTwice(xs) && NoTwice(ys) && (forall t :: t in xs <==> t in ys)
    requires xs != [] && m < |ys| && ys[m] == xs[|xs| - 1]
    ensures var rest := ys[..m] + ys[m + 1..];
            NoTwice(rest) && NoTwice(xs[..|xs| - 1]) && forall t :: t in xs[..|xs| - 1] <==> t in rest
  {
    var n := |xs| - 1;
    var rest := ys[..m] + ys[m + 1..];
    assert forall i :: 0 <= i < |rest| ==> rest[i] == if i < m then ys[i] else ys[i + 1];
    forall t ensures t in xs[..n] <==> t in rest {
      if t in xs[..n] {
        assert t in ys && t != ys[m];
        var i :| 0 <= i < |ys| && ys[i] == t;
        assert rest[if i < m then i else i - 1] == t;
      }
      if t in rest {
        assert t in ys && t != xs[n];
        var i :| 0 <= i < |xs| && xs[i] == t;
        assert xs[..n][i] == t;
      }
    }
  }

  function ByStart(ts: seq<Target>): (m: Choice)
    requires StartsAscend(ts)
    ensures forall t :: t in ts <==> t.start in m && m[t.start] == t
  {
    if ts == [] then map[]
    else
      var n := |ts| - 1;
      assert ts == ts[..n] + [ts[n]];
      ByStart(ts[..n])[ts[n].start := ts[n]]
  }

  /** For every address, an edit of the chosen functions `ts` changes the number of FDE ranges that hold it
      by exactly the sum of what it states of each. */
  lemma EditChangesCoverage(k: Edit, rs: seq<Record>, ts: seq<Target>, a: int)
    requires StartsAscend(ts) && DistinctStarts(rs)
    requires forall i :: 0 <= i < |rs| ==> Exact(rs[i], ByStart(ts))
    requires forall t :: t in ts ==> exists i :: 0 <= i < |rs| && rs[i].Fde? && rs[i].start == t.start
    ensures Coverage(Edited(k, rs, ByStart(ts)), a) == Coverage(rs, a) + TotalStated(k, ts, a)
  {
    hide Edited, Touched, Coverage, Exact, ByStart, TotalStated;
    var chosen := ByStart(ts);
    EditedCoverage(k, rs, chosen, a);
    TouchedMembers(rs, ts);
    TotalOfMembers(k, Touched(rs, chosen), ts, a);
  }

  /** The functions edited are those chosen. */
  lemma TouchedMembers(rs: seq<Record>, ts: seq<Target>)
    requires StartsAscend(ts) && DistinctStarts(rs)
    requires forall t :: t in ts ==> exists i :: 0 <= i < |rs| && rs[i].Fde? && rs[i].start == t.start
    ensures NoTwice(Touched(rs, ByStart(ts))) && NoTwice(ts)
    ensures forall t :: t in Touched(rs, ByStart(ts)) <==> t in ts
  {
    hide Touched, ByStart;
    var chosen := ByStart(ts);
    TouchedOnce(rs, chosen);
    forall t ensures t in Touched(rs, chosen) <==> t in ts {
      if t in ts {
        var i :| 0 <= i < |rs| && rs[i].Fde? && rs[i].start == t.start;
        assert Hit(rs[i], chosen);
      }
    }
  }

  /** What was planted is recorded in the order of the records. */
  lemma {:induction false} TouchedAt(rs: seq<Record>, chosen: Choice, i: nat)
    requires i < |rs| && Hit(rs[i], chosen)
    ensures var k := |Touched(rs[..i], chosen)|;
            k < |Touched(rs, chosen)| && Touched(rs, chosen)[k] == chosen[rs[i].start]
    decreases |rs|
  {
    var n := |rs| - 1;
    if i < n {
      TouchedAt(rs[..n], chosen, i);
      assert rs[..n][..i] == rs[..i];
    }
  }

  /** Each chosen function is edited exactly once, and no other is. */
  lemma TouchedExactly(rs: seq<Record>, ts: seq<Target>)
    requires StartsAscend(ts) && DistinctStarts(rs)
    requires forall t :: t in ts ==> exists i :: 0 <= i < |rs| && rs[i].Fde? && rs[i].start == t.start
    ensures multiset(Touched(rs, ByStart(ts))) == multiset(ts)
  {
    hide Touched, ByStart, NoTwice;
    TouchedMembers(rs, ts);
    var planted := Touched(rs, ByStart(ts));
    forall t ensures multiset(planted)[t] == multiset(ts)[t] {
      OnceEach(planted, t);
      OnceEach(ts, t);
    }
  }

  lemma {:induction false} OnceEach(ts: seq<Target>, t: Target)
    requires NoTwice(ts)
    ensures multiset(ts)[t] == if t in ts then 1 else 0
  {
    if ts != [] {
      var n := |ts| - 1;
      OnceEach(ts[..n], t);
      assert ts == ts[..n] + [ts[n]];
      assert ts[n] !in ts[..n];
    }
  }

  // --- the check -----------------------------------------------------------

  function RangeOf(r: Record): (int, int)
    requires r.Fde?
  {
    (r.start, r.start + r.length)
  }

  /** The FDE ranges of a record list, as a set. */
  function Ranges(rs: seq<Record>): set<(int, int)> {
    set i | 0 <= i < |rs| && rs[i].Fde? :: RangeOf(rs[i])
  }

  function AddedBy(k: Edit, ts: seq<Target>): set<(int, int)> {
    set i, x | 0 <= i < |ts| && x in Plant(k, ts[i]).added :: x
  }

  function RemovedBy(k: Edit, ts: seq<Target>): set<(int, int)> {
    set i, x | 0 <= i < |ts| && x in Plant(k, ts[i]).removed :: x
  }

  /** The FDE part of `verify`: no failure is reported. */
  predicate Accepts(was: set<(int, int)>, now: set<(int, int)>, added: set<(int, int)>, removed: set<(int, int)>) {
    now - was == added - was && was - now == removed - added
  }

  /** The two comparisons of `verify` are one equation. */
  lemma AcceptsExactly(was: set<(int, int)>, now: set<(int, int)>, added: set<(int, int)>, removed: set<(int, int)>)
    requires removed <= was
    ensures Accepts(was, now, added, removed) <==> now == (was - removed) + added
  {
    if Accepts(was, now, added, removed) {
      forall x ensures x in now <==> x in (was - removed) + added {
        assert x in now - was <==> x in added - was;
        assert x in was - now <==> x in removed - added;
      }
    }
  }

  /** The range `x` after the edit comes from the FDE `r`: left alone, or replaced. */
  predicate Gives(k: Edit, r: Record, chosen: Choice, x: (int, int)) {
    r.Fde? && if Hit(r, chosen) then x in Ranges(Replacement(k, chosen[r.start], r)) else x == RangeOf(r)
  }

  lemma {:induction false} EditedRanges(k: Edit, rs: seq<Record>, chosen: Choice, x: (int, int))
    ensures x in Ranges(Edited(k, rs, chosen)) <==> exists i :: 0 <= i < |rs| && Gives(k, rs[i], chosen, x)
  {
    hide Replacement, Ranges, Gives;
    if rs == [] {
      assert Ranges([]) == {} by { NoRanges(); }
    } else {
      var n := |rs| - 1;
      EditedRanges(k, rs[..n], chosen, x);
      assert forall i :: 0 <= i < n ==> rs[..n][i] == rs[i];
      var more := if Hit(rs[n], chosen) then Replacement(k, chosen[rs[n].start], rs[n]) else [rs[n]];
      RangesConcat(Edited(k, rs[..n], chosen), more, x);
      GivesMore(k, rs[n], chosen, x);
    }
  }

  lemma NoRanges()
    ensures Ranges([]) == {}
  {
  }

  lemma GivesMore(k: Edit, r: Record, chosen: Choice, x: (int, int))
    ensures Gives(k, r, chosen, x) <==>
            x in Ranges(if Hit(r, chosen) then Replacement(k, chosen[r.start], r) else [r])
  {
    hide Replacement, Ranges;
    RangesOne(r, x);
  }

  lemma RangesOne(r: Record, x: (int, int))
    ensures x in Ranges([r]) <==> r.Fde? && x == RangeOf(r)
  {
    if r.Fde? {
      assert [r][0].Fde? && RangeOf([r][0]) in Ranges([r]);
    }
  }

  lemma RangesConcat(xs: seq<Record>, ys: seq<Record>, x: (int, int))
    ensures x in Ranges(xs + ys) <==> x in Ranges(xs) || x in Ranges(ys)
  {
    if x in Ranges(xs) {
      var i :| 0 <= i < |xs| && xs[i].Fde? && RangeOf(xs[i]) == x;
      assert (xs + ys)[i] == xs[i];
    }
    if x in Ranges(ys) {
      var i :| 0 <= i < |ys| && ys[i].Fde? && RangeOf(ys[i]) == x;
      assert (xs + ys)[|xs| + i] == ys[i];
    }
  }

  /** One FDE's replacement: what it adds, and the old range when it is not removed. */
  lemma ReplacementRanges(k: Edit, r: Record, chosen: Choice, x: (int, int))
    requires Hit(r, chosen) && Exact(r, chosen)
    ensures var p := Plant(k, chosen[r.start]);
            && (x in Ranges(Replacement(k, chosen[r.start], r)) <==> x in p.added || (x == RangeOf(r) && x !in p.removed))
            && (forall y :: y in p.removed ==> y == RangeOf(r))
  {
    var t := chosen[r.start];
    var s := Replacement(k, t, r);
    assert x in Ranges(s) <==> (|s| > 0 && x == RangeOf(s[0])) || (|s| > 1 && x == RangeOf(s[1]));
  }

  /** Records whose chosen FDEs are exact and start apart. */
  predicate Editable(rs: seq<Record>, chosen: Choice) {
    DistinctStarts(rs) && forall i :: 0 <= i < |rs| ==> Exact(rs[i], chosen)
  }

  lemma PlantedRange(k: Edit, rs: seq<Record>, chosen: Choice, x: (int, int))
    requires Editable(rs, chosen)
    ensures x in AddedBy(k, Touched(rs, chosen)) <==>
            exists i :: 0 <= i < |rs| && Hit(rs[i], chosen) && x in Plant(k, chosen[rs[i].start]).added
    ensures x in RemovedBy(k, Touched(rs, chosen)) <==>
            exists i :: 0 <= i < |rs| && Hit(rs[i], chosen) && x in Plant(k, chosen[rs[i].start]).removed
  {
    hide Plant, Exact;
    var ts := Touched(rs, chosen);
    TouchedOnce(rs, chosen);
    forall i | 0 <= i < |rs| && Hit(rs[i], chosen)
      ensures exists j :: 0 <= j < |ts| && ts[j] == chosen[rs[i].start]
    {
      assert chosen[rs[i].start] in ts;
    }
    forall j | 0 <= j < |ts|
      ensures exists i :: 0 <= i < |rs| && Hit(rs[i], chosen) && chosen[rs[i].start] == ts[j]
    {
      assert ts[j] in ts;
    }
  }

  /** Every edit leaves exactly the ranges there were, less those it removed, with those it added. */
  lemma EditRanges(k: Edit, rs: seq<Record>, chosen: Choice)
    requires Editable(rs, chosen)
    ensures var ts := Touched(rs, chosen);
            && RemovedBy(k, ts) <= Ranges(rs)
            && Ranges(Edited(k, rs, chosen)) == (Ranges(rs) - RemovedBy(k, ts)) + AddedBy(k, ts)
  {
    hide Replacement, Plant, Exact, Edited, Touched, AddedBy, RemovedBy;
    forall x
      ensures x in RemovedBy(k, Touched(rs, chosen)) ==> x in Ranges(rs)
      ensures x in Ranges(Edited(k, rs, chosen)) <==>
              x in (Ranges(rs) - RemovedBy(k, Touched(rs, chosen))) + AddedBy(k, Touched(rs, chosen))
    {
      EditRange(k, rs, chosen, x);
    }
  }

  lemma EditRange(k: Edit, rs: seq<Record>, chosen: Choice, x: (int, int))
    requires Editable(rs, chosen)
    ensures var (added, removed) := (AddedBy(k, Touched(rs, chosen)), RemovedBy(k, Touched(rs, chosen)));
            && (x in removed ==> x in Ranges(rs))
            && (x in Ranges(Edited(k, rs, chosen)) <==> (x in Ranges(rs) && x !in removed) || x in added)
  {
    hide Replacement, Plant, Exact, Edited, Touched, AddedBy, RemovedBy;
    EditedRanges(k, rs, chosen, x);
    PlantedRange(k, rs, chosen, x);
    forall i | 0 <= i < |rs| && Hit(rs[i], chosen)
      ensures var p := Plant(k, chosen[rs[i].start]);
              && (Gives(k, rs[i], chosen, x) <==> x in p.added || (x == RangeOf(rs[i]) && x !in p.removed))
              && (x in p.removed ==> x == RangeOf(rs[i]))
    {
      ReplacementRanges(k, rs[i], chosen, x);
    }
    assert x in Ranges(rs) <==> exists i :: 0 <= i < |rs| && rs[i].Fde? && RangeOf(rs[i]) == x;
  }

  /** So `verify` accepts what every edit leaves. */
  lemma EditVerifies(k: Edit, rs: seq<Record>, chosen: Choice)
    requires Editable(rs, chosen)
    ensures var ts := Touched(rs, chosen);
            Accepts(Ranges(rs), Ranges(Edited(k, rs, chosen)), AddedBy(k, ts), RemovedBy(k, ts))
  {
    EditRanges(k, rs, chosen);
    var ts := Touched(rs, chosen);
    AcceptsExactly(Ranges(rs), Ranges(Edited(k, rs, chosen)), AddedBy(k, ts), RemovedBy(k, ts));
  }

  /** Ranges that hold something and share nothing. */
  predicate DisjointRanges(s: set<(int, int)>) {
    && (forall x :: x in s ==> x.0 < x.1)
    && forall x, y :: x in s && y in s && x != y ==> x.1 <= y.0 || y.1 <= x.0
  }

  /** A long lie runs over a function that is stated behind the target. */
  predicate NextStated(k: Edit, t: Target, was: set<(int, int)>) {
    k.Long? ==> t.next.Some? && t.start < t.next.value.0 && t.next.value in was
  }

  /** For disjoint functions, `verify` rejects the unedited file whenever something was planted. */
  lemma UneditedFails(k: Edit, rs: seq<Record>, chosen: Choice)
    requires Editable(rs, chosen) && DisjointRanges(Ranges(rs))
    requires Touched(rs, chosen) != []
    requires forall t :: t in Touched(rs, chosen) ==> NextStated(k, t, Ranges(rs))
    ensures var ts := Touched(rs, chosen);
            !Accepts(Ranges(rs), Ranges(rs), AddedBy(k, ts), RemovedBy(k, ts))
  {
    hide Edited, Touched, AddedBy, RemovedBy, Replacement, Plant, Editable, DisjointRanges, Ranges, NextStated;
    var ts := Touched(rs, chosen);
    EditedIsDistinct(rs, chosen);
    TouchedOnce(rs, chosen);
    assert ts[0] in ts;
    var i :| 0 <= i < |rs| && Hit(rs[i], chosen) && chosen[rs[i].start] == ts[0];
    if k.Add? {
      NewRange(rs, chosen, i);
      var x := (ts[0].boundary, ts[0].end);
      PlantedRange(k, rs, chosen, x);
      assert x in AddedBy(k, ts) - Ranges(rs);
    } else {
      var x := RangeOf(rs[i]);
      PlantedRange(k, rs, chosen, x);
      RemovesOwn(k, rs, chosen, i);
      forall j | 0 <= j < |rs| && Hit(rs[j], chosen) ensures x !in Plant(k, chosen[rs[j].start]).added {
        assert chosen[rs[j].start] in ts;
        NotAddedBack(k, rs, chosen, i, j);
      }
      assert x in RemovedBy(k, ts) - AddedBy(k, ts);
    }
  }

  lemma EditedIsDistinct(rs: seq<Record>, chosen: Choice)
    requires Editable(rs, chosen)
    ensures DistinctStarts(rs)
  {
  }

  /** An added second FDE is new: no disjoint range starts inside its function. */
  lemma NewRange(rs: seq<Record>, chosen: Choice, i: nat)
    requires Editable(rs, chosen) && DisjointRanges(Ranges(rs)) && i < |rs| && Hit(rs[i], chosen)
    ensures var t := chosen[rs[i].start];
            (t.boundary, t.end) in Plant(Add, t).added && (t.boundary, t.end) !in Ranges(rs)
  {
    assert RangeOf(rs[i]) in Ranges(rs);
  }

  lemma RemovesOwn(k: Edit, rs: seq<Record>, chosen: Choice, i: nat)
    requires Editable(rs, chosen) && !k.Add? && i < |rs| && Hit(rs[i], chosen)
    ensures RangeOf(rs[i]) in Plant(k, chosen[rs[i].start]).removed
  {
  }

  /** No planted range is a removed one. */
  lemma NotAddedBack(k: Edit, rs: seq<Record>, chosen: Choice, i: nat, j: nat)
    requires Editable(rs, chosen) && DisjointRanges(Ranges(rs)) && !k.Add?
    requires i < |rs| && j < |rs| && Hit(rs[i], chosen) && Hit(rs[j], chosen)
    requires NextStated(k, chosen[rs[j].start], Ranges(rs))
    ensures RangeOf(rs[i]) !in Plant(k, chosen[rs[j].start]).added
  {
    hide Replacement;
    assert RangeOf(rs[i]) in Ranges(rs) && RangeOf(rs[j]) in Ranges(rs);
  }
}
