/** The behaviour harness: a decompiled body and its original compared input by input, the counters, and the
    label read off them. Words are numbers below 2^64; a mask of the low k bits is a remainder
    modulo 2^k. */
module BehaviourVerdict {
  import opened Bytes

  // --- words ---------------------------------------------------------------

  function Pow2(k: nat): (r: nat)
    ensures r > 0
  {
    if k == 0 then 1 else 2 * Pow2(k - 1)
  }

  lemma {:induction false} Pow2Split(a: nat, b: nat)
    ensures Pow2(a + b) == Pow2(a) * Pow2(b)
  {
    if a > 0 {
      Pow2Split(a - 1, b);
      DoubleOf(Pow2(a - 1), Pow2(b));
    }
  }

  lemma DoubleOf(x: nat, y: nat)
    ensures 2 * (x * y) == (2 * x) * y
  {
  }

  lemma AddMultiple(k: int, m: nat, r: int)
    requires m > 0
    ensures (k * m + r) % m == r % m
  {
    var x := k * m + r;
    assert x == (k + r / m) * m + r % m by {
      assert (k + r / m) * m == k * m + r / m * m;
    }
    DivisionUnique(m, x / m, x % m, k + r / m, r % m);
  }

  /** The low `k` bits. */
  function Low(x: nat, k: nat): (r: nat)
    ensures r < Pow2(k)
  {
    x % Pow2(k)
  }

  lemma ModOfMod(x: nat, k: nat, m: nat, n: nat)
    requires m > 0 && n > 0 && n == k * m
    ensures x % n % m == x % m
  {
    var (q, r) := (x / n, x % n);
    assert q * n == q * k * m;
    assert x == q * k * m + r;
    AddMultiple(q * k, m, r);
  }

  lemma LowOfLow(x: nat, a: nat, b: nat)
    requires b <= a
    ensures Low(Low(x, a), b) == Low(x, b)
  {
    hide Pow2;
    Pow2Split(a - b, b);
    ModOfMod(x, Pow2(a - b), Pow2(b), Pow2(a));
  }

  predicate TopBit(x: nat, k: nat) { k > 0 && x >= Pow2(k - 1) }

  /** A `k`-bit value sign-extended to `to` bits: the upper bits filled with ones when the top bit is set. */
  function SignExtend(x: nat, k: nat, to: nat): (r: nat)
    requires k <= to && x < Pow2(k)
  {
    Pow2Grows(k, to);
    if TopBit(x, k) then x + (Pow2(to) - Pow2(k)) else x
  }

  lemma {:induction false} Pow2Grows(a: nat, b: nat)
    requires a <= b
    ensures Pow2(a) <= Pow2(b)
    decreases b
  {
    if a < b {
      Pow2Grows(a, b - 1);
    }
  }

  /** Extending does not touch the low bits. */
  lemma LowOfExtended(x: nat, k: nat, to: nat, b: nat)
    requires b <= k <= to && x < Pow2(k)
    ensures Low(SignExtend(x, k, to), b) == Low(x, b)
  {
    hide Pow2;
    if TopBit(x, k) {
      Pow2Grows(k, to);
      Pow2Split(to - b, b);
      Pow2Split(k - b, b);
      AddedOnes(x, Pow2(to - b), Pow2(k - b), Pow2(b), Pow2(to), Pow2(k));
    }
  }

  lemma AddedOnes(x: nat, p: nat, q: nat, m: nat, pm: nat, qm: nat)
    requires m > 0 && pm == p * m && qm == q * m
    ensures (x + (pm - qm)) % m == x % m
  {
    assert pm - qm == (p - q) * m;
    AddMultiple(p - q, m, x);
  }

  /** The number `k` bits stand for as a signed type: two's complement. */
  function Signed(x: nat, k: nat): int { if 2 * x < Pow2(k) then x else x - Pow2(k) }

  /** Sign extension keeps the number the bits stand for. */
  lemma SignKept(x: nat, k: nat, to: nat)
    requires 0 < k <= to && x < Pow2(k)
    ensures SignExtend(x, k, to) < Pow2(to) && Signed(SignExtend(x, k, to), to) == Signed(x, k)
  {
    Pow2Grows(k, to);
    if k < to {
      Pow2Grows(k, to - 1);
    }
  }

  /** No two patterns of bits stand for one number. */
  lemma SignedDistinct(x: nat, y: nat, k: nat)
    requires x < Pow2(k) && y < Pow2(k) && Signed(x, k) == Signed(y, k)
    ensures x == y
  {
  }

  /** Two numbers agree in the low `k` bits. */
  predicate Congruent(a: int, b: int, k: nat) { (a - b) % Pow2(k) == 0 }

  lemma SameRemainder(a: int, b: int, m: nat)
    requires m > 0
    ensures (a - b) % m == 0 <==> a % m == b % m
  {
    var (p, r, q, t) := (a / m, a % m, b / m, b % m);
    assert a - b == (p - q) * m + (r - t) by { assert (p - q) * m == p * m - q * m; }
    AddMultiple(p - q, m, r - t);
    if r >= t {
      DivisionUnique(m, (r - t) / m, (r - t) % m, 0, r - t);
    } else {
      DivisionUnique(m, (r - t) / m, (r - t) % m, -1, r - t + m);
    }
  }

  lemma CongruentLow(a: nat, b: nat, k: nat)
    ensures Congruent(a, b, k) <==> Low(a, k) == Low(b, k)
  {
    SameRemainder(a, b, Pow2(k));
  }

  // --- one input -----------------------------------------------------------

  type word = x: nat | x < 0x1_0000_0000_0000_0000

  /** How many bits the source returns and the body declares, none for void, and whether those have a sign. */
  datatype Facts = Facts(src: nat, width: nat, signed: bool)

  predicate Widths(f: Facts) { f.src <= 64 && f.width <= 64 }

  /** What one input came to. `Answer`: both returned; the original's value with a pointer into its own
      buffers already moved to the copy's. `Text`: the answers compared as text, none when that signalled; the
      buffers are not looked at then. */
  datatype Trial =
    | OriginalStopped
    | BodyStopped
    | Text(equal: Option<bool>, buffersDiffer: bool)
    | Answer(source: word, body: word, buffersDiffer: bool, nan: bool)

  function LowBits(f: Facts): nat { if f.width < f.src then f.width else f.src }

  /** The body's value as its declared type makes a full word of it. */
  function Full(f: Facts, body: word): nat
    requires Widths(f)
  {
    if 0 < f.width < 64 then
      (if f.signed then SignExtend(Low(body, f.width), f.width, 64) else Low(body, f.width))
    else body
  }

  predicate FullEqual(f: Facts, t: Trial)
    requires Widths(f) && t.Answer?
  {
    (f.src == 0 || (f.width != 0 && Low(Full(f, t.body), f.src) == Low(t.source, f.src))) && !t.buffersDiffer
  }

  predicate LowEqual(f: Facts, t: Trial)
    requires Widths(f) && t.Answer?
  {
    (f.src == 0 || (f.width != 0 && Low(t.body, LowBits(f)) == Low(Low(t.source, f.src), LowBits(f)))) && !t.buffersDiffer
  }

  /** Full agreement is low agreement, and when the body is not narrower than the source, the other way too. */
  lemma FullImpliesLow(f: Facts, t: Trial)
    requires Widths(f) && t.Answer?
    ensures FullEqual(f, t) ==> LowEqual(f, t)
    ensures LowEqual(f, t) && !FullEqual(f, t) ==> 0 < f.width < f.src
  {
    var l := LowBits(f);
    if f.src > 0 && f.width > 0 {
      LowOfLow(t.source, f.src, l);
      LowOfLow(Full(f, t.body), f.src, l);
      if f.width < 64 {
        LowOfLow(t.body, f.width, l);
        LowOfExtended(Low(t.body, f.width), f.width, 64, l);
      }
    }
  }

  /** The original's low bits extended by one rule give its whole value: `zero` tells which rule. */
  predicate Extends(f: Facts, t: Trial, zero: bool)
    requires Widths(f) && t.Answer?
  {
    0 < LowBits(f) < f.src ==>
      var lo := Low(Low(t.source, f.src), LowBits(f));
      Low(t.source, f.src) == if zero then lo else SignExtend(lo, LowBits(f), f.src)
  }

  // --- the loop ------------------------------------------------------------

  datatype Class = Skipped | Crashed | AgreesFull | AgreesLow | Differs | DiffersOnNan

  function ClassOf(f: Facts, t: Trial): Class
    requires Widths(f)
  {
    match t
    case OriginalStopped => Skipped
    case BodyStopped => Crashed
    case Text(None, _) => Crashed
    case Text(Some(equal), _) => if equal then AgreesFull else Differs
    case Answer(_, _, _, nan) =>
      if FullEqual(f, t) then AgreesFull
      else if LowEqual(f, t) then AgreesLow
      else if nan then DiffersOnNan
      else Differs
  }

  datatype Counters = Counters(sameFull: nat, sameLow: nat, differ: nat, differNan: nat, crash: nat,
                               origCrash: nat, bufDiff: nat, zextOk: bool, sextOk: bool)

  const START: Counters := Counters(0, 0, 0, 0, 0, 0, 0, true, true)

  /** One input counted. */
  function Count(f: Facts, c: Counters, t: Trial): Counters
    requires Widths(f)
  {
    var d := if t.Answer? then c.(bufDiff := c.bufDiff + (if t.buffersDiffer then 1 else 0),
                                  zextOk := c.zextOk && Extends(f, t, true), sextOk := c.sextOk && Extends(f, t, false))
             else c;
    match ClassOf(f, t)
    case Skipped => d.(origCrash := d.origCrash + 1)
    case Crashed => d.(crash := d.crash + 1)
    case AgreesFull => d.(sameFull := d.sameFull + 1)
    case AgreesLow => d.(sameLow := d.sameLow + 1)
    case Differs => d.(differ := d.differ + 1)
    case DiffersOnNan => d.(differNan := d.differNan + 1)
  }

  /** The loop gives up at the sixth crash, when it is the body itself that stopped. */
  predicate GivesUp(c: Counters, t: Trial) { t.BodyStopped? && c.crash + 1 >= 6 }

  function RunFrom(f: Facts, c: Counters, ts: seq<Trial>): Counters
    requires Widths(f)
    decreases ts
  {
    if ts == [] then c
    else if GivesUp(c, ts[0]) then Count(f, c, ts[0])
    else RunFrom(f, Count(f, c, ts[0]), ts[1..])
  }

  /** How many inputs the loop gets to. */
  function Reached(f: Facts, c: Counters, ts: seq<Trial>): (n: nat)
    requires Widths(f)
    ensures n <= |ts|
    decreases ts
  {
    if ts == [] then 0
    else if GivesUp(c, ts[0]) then 1
    else 1 + Reached(f, Count(f, c, ts[0]), ts[1..])
  }

  method Harness(f: Facts, ts: seq<Trial>) returns (c: Counters)
    requires Widths(f)
    ensures c == RunFrom(f, START, ts)
  {
    var sameFull, sameLow, differ, differNan, crash, origCrash, bufDiff := 0, 0, 0, 0, 0, 0, 0;
    var zextOk, sextOk := true, true;
    var low := LowBits(f);
    c := START;
    for i := 0 to |ts|
      invariant c == Counters(sameFull, sameLow, differ, differNan, crash, origCrash, bufDiff, zextOk, sextOk)
      invariant RunFrom(f, START, ts) == RunFrom(f, c, ts[i..])
    {
      var t := ts[i];
      ghost var before := c;
      assert ts[i..][0] == t && ts[i..][1..] == ts[i + 1..];
      match t {
        case OriginalStopped => origCrash := origCrash + 1;
        case BodyStopped =>
          crash := crash + 1;
        case Text(None, _) => crash := crash + 1;
        case Text(Some(equal), _) =>
          if equal { sameFull := sameFull + 1; } else { differ := differ + 1; }
        case Answer(source, body, differs, nan) =>
          if differs { bufDiff := bufDiff + 1; }
          if 0 < low < f.src {
            var sv := Low(source, f.src);
            var lo := Low(sv, low);
            if sv != lo { zextOk := false; }
            if sv != SignExtend(lo, low, f.src) { sextOk := false; }
          }
          if FullEqual(f, t) { sameFull := sameFull + 1; }
          else if LowEqual(f, t) { sameLow := sameLow + 1; }
          else if nan { differNan := differNan + 1; }
          else { differ := differ + 1; }
      }
      c := Counters(sameFull, sameLow, differ, differNan, crash, origCrash, bufDiff, zextOk, sextOk);
      assert c == Count(f, before, t);
      if t.BodyStopped? && crash >= 6 { return; }
    }
  }

  function Total(c: Counters): nat {
    c.sameFull + c.sameLow + c.differ + c.differNan + c.crash + c.origCrash
  }

  /** The counters add up to the inputs the loop got to. */
  lemma {:induction false} CountersAddUp(f: Facts, c: Counters, ts: seq<Trial>)
    requires Widths(f)
    ensures Total(RunFrom(f, c, ts)) == Total(c) + Reached(f, c, ts)
    decreases ts
  {
    hide ClassOf, Extends, Count;
    if ts != [] {
      CountOne(f, c, ts[0]);
      if !GivesUp(c, ts[0]) {
        CountersAddUp(f, Count(f, c, ts[0]), ts[1..]);
      }
    }
  }

  /** How many of the first `n` inputs are of a class. */
  function Number(f: Facts, ts: seq<Trial>, n: nat, k: Class): nat
    requires Widths(f)
    decreases ts
  {
    if n == 0 || ts == [] then 0 else (if ClassOf(f, ts[0]) == k then 1 else 0) + Number(f, ts[1..], n - 1, k)
  }

  /** How many of the first `n` inputs left the buffers different. */
  function NumberBuffers(ts: seq<Trial>, n: nat): nat
    decreases ts
  {
    if n == 0 || ts == [] then 0
    else (if ts[0].Answer? && ts[0].buffersDiffer then 1 else 0) + NumberBuffers(ts[1..], n - 1)
  }

  /** Each counter is the number of inputs of its class among those the loop got to. */
  lemma {:induction false} CountersExact(f: Facts, c: Counters, ts: seq<Trial>)
    requires Widths(f)
    ensures var (d, n) := (RunFrom(f, c, ts), Reached(f, c, ts));
            && d.sameFull == c.sameFull + Number(f, ts, n, AgreesFull)
            && d.sameLow == c.sameLow + Number(f, ts, n, AgreesLow)
            && d.differ == c.differ + Number(f, ts, n, Differs)
            && d.differNan == c.differNan + Number(f, ts, n, DiffersOnNan)
            && d.crash == c.crash + Number(f, ts, n, Crashed)
            && d.origCrash == c.origCrash + Number(f, ts, n, Skipped)
            && d.bufDiff == c.bufDiff + NumberBuffers(ts, n)
    decreases ts
  {
    hide ClassOf, Extends, Count;
    if ts != [] {
      CountOne(f, c, ts[0]);
      if !GivesUp(c, ts[0]) {
        CountersExact(f, Count(f, c, ts[0]), ts[1..]);
      }
    }
  }

  lemma CountOne(f: Facts, c: Counters, t: Trial)
    requires Widths(f)
    ensures var (d, k) := (Count(f, c, t), ClassOf(f, t));
            && d.sameFull == c.sameFull + (if k == AgreesFull then 1 else 0)
            && d.sameLow == c.sameLow + (if k == AgreesLow then 1 else 0)
            && d.differ == c.differ + (if k == Differs then 1 else 0)
            && d.differNan == c.differNan + (if k == DiffersOnNan then 1 else 0)
            && d.crash == c.crash + (if k == Crashed then 1 else 0)
            && d.origCrash == c.origCrash + (if k == Skipped then 1 else 0)
            && d.bufDiff == c.bufDiff + (if t.Answer? && t.buffersDiffer then 1 else 0)
  {
    hide ClassOf, Extends;
  }

  // --- what an input came to, in plain terms --------------------------------

  /** The number the body returns, by its declared type. */
  function Value(f: Facts, body: word): int {
    if f.signed then Signed(Low(body, f.width), f.width) else Low(body, f.width)
  }

  /** The full word is that number, in 64 bits. */
  lemma FullIsValue(f: Facts, body: word)
    requires Widths(f) && f.width > 0
    ensures Full(f, body) == Value(f, body) || Full(f, body) == Value(f, body) + Pow2(64)
  {
    hide Pow2;
    Pow2Of64();
    if f.width < 64 {
      if f.signed {
        SignKept(Low(body, f.width), f.width, 64);
      }
    } else {
      DivisionUnique(Pow2(64), body / Pow2(64), body % Pow2(64), 0, body);
    }
  }

  lemma Pow2Of64()
    ensures Pow2(64) == 0x1_0000_0000_0000_0000
  {
    hide Pow2;
    Pow2Of8();
    Pow2Split(8, 8);
    Pow2Split(16, 16);
    Pow2Split(32, 32);
  }

  lemma Pow2Of8()
    ensures Pow2(8) == 256
  {
    assert Pow2(4) == 16;
  }

  /** Comparing the full word in the source's width is comparing the numbers in it. */
  lemma FullAgrees(f: Facts, body: word, source: word)
    requires Widths(f) && f.width > 0
    ensures Low(Full(f, body), f.src) == Low(source, f.src) <==> Congruent(Value(f, body), source, f.src)
  {
    hide Pow2, Full, Value;
    FullIsValue(f, body);
    CongruentLow(Full(f, body), source, f.src);
    if Full(f, body) != Value(f, body) {
      Pow2Split(64 - f.src, f.src);
      AddMultiple(Pow2(64 - f.src), Pow2(f.src), Value(f, body) - source);
    }
  }

  predicate Stopped(t: Trial) { t.BodyStopped? || (t.Text? && t.equal.None?) }

  /** Equal texts; or a number that is the source's in the source's width, and equal buffers. */
  predicate InFull(f: Facts, t: Trial) {
    || (t.Text? && t.equal == Some(true))
    || (t.Answer? && !t.buffersDiffer && (f.src == 0 || (f.width != 0 && Congruent(Value(f, t.body), t.source, f.src))))
  }

  /** Equal buffers, and bits that are the low bits of the source, of a body narrower than it. */
  predicate InLow(f: Facts, t: Trial) {
    t.Answer? && !t.buffersDiffer && 0 < f.width < f.src && Congruent(t.body, t.source, f.width)
  }

  /** Both returned, and neither the numbers nor the low bits agree. */
  predicate Disagrees(f: Facts, t: Trial) {
    !t.OriginalStopped? && !Stopped(t) && !InFull(f, t) && !InLow(f, t)
  }

  lemma FullEqualMeans(f: Facts, t: Trial)
    requires Widths(f) && t.Answer?
    ensures FullEqual(f, t) <==> InFull(f, t)
  {
    hide Low, Full, Value, Congruent;
    if f.width > 0 {
      FullAgrees(f, t.body, t.source);
    }
  }

  lemma LowEqualMeans(f: Facts, t: Trial)
    requires Widths(f) && t.Answer?
    ensures LowEqual(f, t) && !FullEqual(f, t) <==> InLow(f, t) && !InFull(f, t)
  {
    hide Low, Full, Value, Congruent;
    FullEqualMeans(f, t);
    FullImpliesLow(f, t);
    if 0 < f.width < f.src {
      CongruentLow(t.body, t.source, f.width);
      LowOfLow(t.source, f.src, f.width);
    }
  }

  /** The class of every input. */
  lemma ClassMeans(f: Facts, t: Trial)
    requires Widths(f)
    ensures ClassOf(f, t) == Skipped <==> t.OriginalStopped?
    ensures ClassOf(f, t) == Crashed <==> Stopped(t)
    ensures ClassOf(f, t) == AgreesFull <==> InFull(f, t)
    ensures ClassOf(f, t) == AgreesLow <==> InLow(f, t) && !InFull(f, t)
    ensures ClassOf(f, t) == DiffersOnNan <==> Disagrees(f, t) && t.Answer? && t.nan
    ensures ClassOf(f, t) == Differs <==> Disagrees(f, t) && !(t.Answer? && t.nan)
  {
    hide FullEqual, LowEqual, Congruent, Value;
    if t.Answer? {
      FullEqualMeans(f, t);
      LowEqualMeans(f, t);
    }
  }

  /** The inputs the loop gets to: all of them, or all up to the first on which the body stopped and which is at
      least the sixth crash. */
  lemma {:induction false} ReachedExactly(f: Facts, c: Counters, ts: seq<Trial>)
    requires Widths(f)
    ensures var n := Reached(f, c, ts);
            && (forall j :: 0 <= j < n - 1 ==> !(ts[j].BodyStopped? && c.crash + Number(f, ts, j + 1, Crashed) >= 6))
            && (n < |ts| ==> 0 < n && ts[n - 1].BodyStopped? && c.crash + Number(f, ts, n, Crashed) >= 6)
    decreases ts
  {
    hide ClassOf, Extends, Count;
    if ts != [] {
      CountOne(f, c, ts[0]);
      StoppedCrashes(f, ts[0]);
      if !GivesUp(c, ts[0]) {
        var c' := Count(f, c, ts[0]);
        ReachedExactly(f, c', ts[1..]);
        assert forall j: nat :: c'.crash + Number(f, ts[1..], j, Crashed) == c.crash + Number(f, ts, j + 1, Crashed);
      }
    }
  }

  // --- the label -----------------------------------------------------------

  datatype Report = Nothing | LinkError | Timeout | RunDied | HarnessError | Ran(counters: Counters)

  datatype Label = NotRun | NoLink | Died | Crash | Differ | DifferNanOnly | SameExt | Narrow | Same

  /** `outcome`. */
  function Outcome(o: Report): (l: Label)
    ensures l == NotRun <==> o.Nothing?
    ensures l == NoLink <==> o.LinkError?
    ensures l == Died <==> o.Timeout? || o.RunDied? || o.HarnessError?
  {
    match o
    case Nothing => NotRun
    case LinkError => NoLink
    case Timeout => Died
    case RunDied => Died
    case HarnessError => Died
    case Ran(c) =>
      if c.crash > 0 then Crash
      else if c.differ > 0 then Differ
      else if c.differNan > 0 then DifferNanOnly
      else if c.sameLow > 0 then (if c.zextOk || c.sextOk then SameExt else Narrow)
      else Same
  }

  function Verdict(f: Facts, ts: seq<Trial>): Label
    requires Widths(f)
  {
    Outcome(Ran(RunFrom(f, START, ts)))
  }

  predicate Occurs(f: Facts, ts: seq<Trial>, k: Class)
    requires Widths(f)
  {
    exists i :: 0 <= i < |ts| && ClassOf(f, ts[i]) == k
  }

  predicate AllExtend(f: Facts, ts: seq<Trial>, zero: bool)
    requires Widths(f)
  {
    forall i :: 0 <= i < |ts| && ts[i].Answer? ==> Extends(f, ts[i], zero)
  }

  lemma OccursSplit(f: Facts, ts: seq<Trial>, k: Class)
    requires Widths(f) && ts != []
    ensures Occurs(f, ts, k) <==> ClassOf(f, ts[0]) == k || Occurs(f, ts[1..], k)
  {
    hide ClassOf;
    assert forall i :: 1 <= i < |ts| ==> ts[i] == ts[1..][i - 1];
    if Occurs(f, ts[1..], k) {
      var i :| 0 <= i < |ts[1..]| && ClassOf(f, ts[1..][i]) == k;
      assert ts[i + 1] == ts[1..][i];
    }
  }

  lemma ExtendSplit(f: Facts, ts: seq<Trial>, zero: bool)
    requires Widths(f) && ts != []
    ensures AllExtend(f, ts, zero) <==> (ts[0].Answer? ==> Extends(f, ts[0], zero)) && AllExtend(f, ts[1..], zero)
  {
    hide Extends;
    assert forall i :: 1 <= i < |ts| ==> ts[i] == ts[1..][i - 1];
  }

  /** A crash anywhere is seen; without one every input is, and each counter tells whether its class occurs. */
  lemma {:induction false} CountersTell(f: Facts, c: Counters, ts: seq<Trial>)
    requires Widths(f)
    ensures var d := RunFrom(f, c, ts);
            && (d.crash > 0 <==> c.crash > 0 || Occurs(f, ts, Crashed))
            && (d.crash == 0 ==>
                  && (d.differ > 0 <==> c.differ > 0 || Occurs(f, ts, Differs))
                  && (d.differNan > 0 <==> c.differNan > 0 || Occurs(f, ts, DiffersOnNan))
                  && (d.sameLow > 0 <==> c.sameLow > 0 || Occurs(f, ts, AgreesLow))
                  && (d.zextOk <==> c.zextOk && AllExtend(f, ts, true))
                  && (d.sextOk <==> c.sextOk && AllExtend(f, ts, false)))
    decreases ts
  {
    hide ClassOf, Extends, Occurs, AllExtend;
    if ts == [] {
      NoneAtAll(f);
    } else {
      OccursSplit(f, ts, Crashed);
      OccursSplit(f, ts, Differs);
      OccursSplit(f, ts, DiffersOnNan);
      OccursSplit(f, ts, AgreesLow);
      ExtendSplit(f, ts, true);
      ExtendSplit(f, ts, false);
      StoppedCrashes(f, ts[0]);
      if !GivesUp(c, ts[0]) {
        CountersTell(f, Count(f, c, ts[0]), ts[1..]);
      }
    }
  }

  lemma StoppedCrashes(f: Facts, t: Trial)
    requires Widths(f)
    ensures t.BodyStopped? ==> ClassOf(f, t) == Crashed
  {
  }

  lemma NoneAtAll(f: Facts)
    requires Widths(f)
    ensures forall k :: !Occurs(f, [], k)
    ensures AllExtend(f, [], true) && AllExtend(f, [], false)
  {
  }

  /** Every label, exactly: over every list of inputs. */
  lemma LabelsExactly(f: Facts, ts: seq<Trial>)
    requires Widths(f)
    ensures Verdict(f, ts) == Crash <==> Occurs(f, ts, Crashed)
    ensures Verdict(f, ts) == Differ <==> !Occurs(f, ts, Crashed) && Occurs(f, ts, Differs)
    ensures Verdict(f, ts) == DifferNanOnly <==>
            !Occurs(f, ts, Crashed) && !Occurs(f, ts, Differs) && Occurs(f, ts, DiffersOnNan)
    ensures Verdict(f, ts) in {SameExt, Narrow} <==> AllAgree(f, ts) && Occurs(f, ts, AgreesLow)
    ensures Verdict(f, ts) == SameExt <==>
            AllAgree(f, ts) && Occurs(f, ts, AgreesLow) && (AllExtend(f, ts, true) || AllExtend(f, ts, false))
    ensures Verdict(f, ts) == Same <==> AllAgree(f, ts) && !Occurs(f, ts, AgreesLow)
  {
    hide ClassOf, Extends, Occurs, AllExtend, RunFrom;
    CountersTell(f, START, ts);
  }

  predicate AllAgree(f: Facts, ts: seq<Trial>)
    requires Widths(f)
  {
    !Occurs(f, ts, Crashed) && !Occurs(f, ts, Differs) && !Occurs(f, ts, DiffersOnNan)
  }

  // --- what a label means --------------------------------------------------

  /** Every label, over every list of inputs, in plain terms. */
  lemma LabelsMean(f: Facts, ts: seq<Trial>)
    requires Widths(f)
    ensures Verdict(f, ts) == Crash <==> exists i :: 0 <= i < |ts| && Stopped(ts[i])
    ensures Verdict(f, ts) == Differ <==>
            && (forall i :: 0 <= i < |ts| ==> !Stopped(ts[i]))
            && exists i :: 0 <= i < |ts| && Disagrees(f, ts[i]) && !(ts[i].Answer? && ts[i].nan)
    ensures Verdict(f, ts) == DifferNanOnly <==>
            && (forall i :: 0 <= i < |ts| ==> !Stopped(ts[i]) && (Disagrees(f, ts[i]) ==> ts[i].Answer? && ts[i].nan))
            && exists i :: 0 <= i < |ts| && Disagrees(f, ts[i])
    ensures Verdict(f, ts) in {SameExt, Narrow} <==>
            && (forall i :: 0 <= i < |ts| ==> ts[i].OriginalStopped? || InFull(f, ts[i]) || InLow(f, ts[i]))
            && exists i :: 0 <= i < |ts| && InLow(f, ts[i]) && !InFull(f, ts[i])
    ensures Verdict(f, ts) == Same <==> forall i :: 0 <= i < |ts| ==> ts[i].OriginalStopped? || InFull(f, ts[i])
  {
    hide ClassOf, InFull, InLow, Verdict, AllExtend, Stopped;
    LabelsExactly(f, ts);
    forall i | 0 <= i < |ts|
      ensures ClassOf(f, ts[i]) == Skipped <==> ts[i].OriginalStopped?
      ensures ClassOf(f, ts[i]) == Crashed <==> Stopped(ts[i])
      ensures ClassOf(f, ts[i]) == AgreesFull <==> InFull(f, ts[i])
      ensures ClassOf(f, ts[i]) == AgreesLow <==> InLow(f, ts[i]) && !InFull(f, ts[i])
      ensures ClassOf(f, ts[i]) == DiffersOnNan <==> Disagrees(f, ts[i]) && ts[i].Answer? && ts[i].nan
      ensures ClassOf(f, ts[i]) == Differs <==> Disagrees(f, ts[i]) && !(ts[i].Answer? && ts[i].nan)
    {
      ClassMeans(f, ts[i]);
    }
  }

  /** `same`: every input compared by value gives the source's number, in the source's width, and equal buffers,
      every one compared as text has equal texts, whatever its buffers hold, and the body stopped on none. */
  lemma SameMeans(f: Facts, ts: seq<Trial>)
    requires Widths(f)
    ensures Verdict(f, ts) == Same <==>
            forall i :: 0 <= i < |ts| ==>
              match ts[i]
              case OriginalStopped => true
              case BodyStopped => false
              case Text(e, _) => e == Some(true)
              case Answer(source, body, differs, _) =>
                !differs && (f.src == 0 || (f.width != 0 && Congruent(Value(f, body), source, f.src)))
  {
    hide Congruent, Value, Verdict;
    LabelsMean(f, ts);
  }

  /** The source's value is the body's bits and no others, or the number they stand for as a signed type. */
  predicate Widens(f: Facts, t: Trial, zero: bool)
    requires t.Answer?
  {
    if zero then Low(t.source, f.src) == Low(t.body, f.width)
    else Signed(Low(t.source, f.src), f.src) == Signed(Low(t.body, f.width), f.width)
  }

  /** One rule gives the source's value on every compared input. */
  predicate OneRule(f: Facts, ts: seq<Trial>, zero: bool) {
    forall i :: 0 <= i < |ts| && ts[i].Answer? ==> Widens(f, ts[i], zero)
  }

  /** On an input that agrees, the rule that extends the original's low bits extends the body's. */
  lemma ExtendsIsWidened(f: Facts, t: Trial, zero: bool)
    requires Widths(f) && t.Answer? && 0 < f.width < f.src && ClassOf(f, t) in {AgreesFull, AgreesLow}
    ensures Extends(f, t, zero) <==> Widens(f, t, zero)
  {
    hide Low, Full, SignExtend, Signed;
    FullImpliesLow(f, t);
    var lo := Low(t.body, f.width);
    assert lo == Low(Low(t.source, f.src), LowBits(f));
    SignKept(lo, f.width, f.src);
    if Signed(Low(t.source, f.src), f.src) == Signed(lo, f.width) {
      SignedDistinct(Low(t.source, f.src), SignExtend(lo, f.width, f.src), f.src);
    }
  }

  /** `same_ext`: the body is narrower than the source, some input agrees in its bits only, no buffer differs,
      and one rule, the same for all inputs, makes the source's value of the body's bits; `narrow` when
      neither rule does. */
  lemma SameExtMeans(f: Facts, ts: seq<Trial>)
    requires Widths(f) && Verdict(f, ts) in {SameExt, Narrow}
    ensures 0 < f.width < f.src
    ensures forall i :: 0 <= i < |ts| && ts[i].Answer? ==> !ts[i].buffersDiffer
    ensures Verdict(f, ts) == SameExt <==> OneRule(f, ts, true) || OneRule(f, ts, false)
  {
    hide Low, Full, RunFrom, Verdict, FullEqual, LowEqual, Widens;
    LabelsExactly(f, ts);
    var k :| 0 <= k < |ts| && ClassOf(f, ts[k]) == AgreesLow;
    FullImpliesLow(f, ts[k]);
    forall i | 0 <= i < |ts| && ts[i].Answer?
      ensures ClassOf(f, ts[i]) in {AgreesFull, AgreesLow} && !ts[i].buffersDiffer
    {
      Agrees(f, ts, i);
    }
    forall i, zero | 0 <= i < |ts| && ts[i].Answer?
      ensures Extends(f, ts[i], zero) <==> Widens(f, ts[i], zero)
    {
      ExtendsIsWidened(f, ts[i], zero);
    }
  }

  lemma Agrees(f: Facts, ts: seq<Trial>, i: nat)
    requires Widths(f) && AllAgree(f, ts) && i < |ts| && ts[i].Answer?
    ensures ClassOf(f, ts[i]) in {AgreesFull, AgreesLow} && !ts[i].buffersDiffer
  {
    hide Low, Full;
    assert ClassOf(f, ts[i]) !in {Crashed, Differs, DiffersOnNan};
  }

  /** The buffers are part of `same` exactly where no input is compared as text: a list judged `same` has a
      buffer that differs if and only if one of its texts has. */
  lemma SameBuffers(f: Facts, ts: seq<Trial>)
    requires Widths(f) && Verdict(f, ts) == Same
    ensures (forall i :: 0 <= i < |ts| ==> !Disturbed(ts[i])) <==>
            forall i :: 0 <= i < |ts| && ts[i].Text? ==> !ts[i].buffersDiffer
  {
    hide Verdict, Low, Full;
    SameMeans(f, ts);
  }

  /** Both returned and left different buffers. */
  predicate Disturbed(t: Trial) { (t.Text? || t.Answer?) && t.buffersDiffer }

  /** Equal texts are `same` with every buffer different. */
  lemma SameWithBuffersDifferent(f: Facts)
    requires Widths(f)
    ensures Verdict(f, [Text(Some(true), true)]) == Same && Disturbed(Text(Some(true), true))
  {
    SameMeans(f, [Text(Some(true), true)]);
  }

  /** `same` says nothing about an original that stopped on every input. */
  lemma SameWithNothingCompared(f: Facts, n: nat)
    requires Widths(f)
    ensures Verdict(f, seq(n, i => OriginalStopped)) == Same
  {
    SameMeans(f, seq(n, i => OriginalStopped));
  }
}
