/** `chosen_indices`: an evenly spread share of a list, the share a fraction p/q. The comment at its
    definition says `round`; the formula telescopes to a floor. */
module Share {
  import opened Bytes

  /** The running floor of n * p/q. */
  function Floor(n: nat, p: nat, q: nat): nat
    requires q > 0
  {
    n * p / q
  }

  /** Index `n` is chosen when the running floor steps up. */
  predicate Chosen(n: nat, p: nat, q: nat)
    requires q > 0
  {
    Floor(n + 1, p, q) > Floor(n, p, q)
  }

  function ChosenIndices(count: nat, p: nat, q: nat): (s: set<nat>)
    requires q > 0
    ensures forall n: nat :: n in s <==> n < count && Chosen(n, p, q)
  {
    set n: nat | n < count && Chosen(n, p, q)
  }

  /** The least whole number not below x/q. */
  function CeilDiv(x: nat, q: nat): nat
    requires q > 0
  {
    (x + q - 1) / q
  }

  /** Adding `d` to a number moves its floor by the floor or the ceiling of d/q. */
  lemma FloorStep(x: nat, d: nat, q: nat)
    requires q > 0
    ensures d / q <= (x + d) / q - x / q <= CeilDiv(d, q)
  {
    var (a, b, c) := (x / q, d / q, (x + d) / q);
    var m := x % q + d % q;
    SumParts(x, d, q);
    if m < q {
      DivisionUnique(q, c, (x + d) % q, a + b, m);
    } else {
      DivisionUnique(q, c, (x + d) % q, a + b + 1, m - q);
    }
    Ceiling(d, q);
  }

  lemma SumParts(x: nat, d: nat, q: nat)
    requires q > 0
    ensures var (a, b, m) := (x / q, d / q, x % q + d % q);
            && x + d == (x + d) / q * q + (x + d) % q
            && x + d == (a + b) * q + m && x + d == (a + b + 1) * q + (m - q)
  {
    var (a, b) := (x / q, d / q);
    assert (a + b) * q == a * q + b * q;
    assert (a + b + 1) * q == (a + b) * q + q;
  }

  lemma Distribute(a: nat, b: nat, p: nat)
    ensures (a + b) * p == a * p + b * p
  {
  }

  /** A stretch of `len` indices moves the floor by the floor or the ceiling of its share. */
  lemma FloorMoves(lo: nat, len: nat, p: nat, q: nat)
    requires q > 0
    ensures Floor(len, p, q) <= Floor(lo + len, p, q) - Floor(lo, p, q) <= CeilDiv(len * p, q)
  {
    Distribute(lo, len, p);
    FloorStep(lo * p, len * p, q);
  }

  /** A share of at most one steps the floor by at most one. */
  lemma UnitStep(n: nat, p: nat, q: nat)
    requires q > 0 && p <= q
    ensures 0 <= Floor(n + 1, p, q) - Floor(n, p, q) <= 1
  {
    hide Floor;
    FloorMoves(n, 1, p, q);
    assert 1 * p == p;
    DivisionUnique(q, (p + q - 1) / q, (p + q - 1) % q, if p == 0 then 0 else 1, if p == 0 then q - 1 else p - 1);
  }

  lemma Ceiling(d: nat, q: nat)
    requires q > 0
    ensures CeilDiv(d, q) == d / q + if d % q == 0 then 0 else 1
  {
    var (b, m) := (d / q, d % q);
    assert d == b * q + m;
    if m == 0 {
      assert d + q - 1 == b * q + (q - 1);
      DivisionUnique(q, (d + q - 1) / q, (d + q - 1) % q, b, q - 1);
    } else {
      assert d + q - 1 == (b + 1) * q + (m - 1);
      DivisionUnique(q, (d + q - 1) / q, (d + q - 1) % q, b + 1, m - 1);
    }
  }

  /** The chosen indices from `lo` to `lo + len`. */
  function Block(lo: nat, len: nat, p: nat, q: nat): (s: set<nat>)
    requires q > 0
  {
    set n: nat | lo <= n < lo + len && Chosen(n, p, q)
  }

  /** How many of a block are chosen: the floors telescope. */
  lemma {:induction false} BlockCount(lo: nat, len: nat, p: nat, q: nat)
    requires q > 0 && p <= q
    ensures |Block(lo, len, p, q)| == Floor(lo + len, p, q) - Floor(lo, p, q)
  {
    hide Floor;
    if len == 0 {
      assert Block(lo, len, p, q) == {};
    } else {
      BlockCount(lo, len - 1, p, q);
      var n := lo + len - 1;
      UnitStep(n, p, q);
      if Chosen(n, p, q) {
        assert Block(lo, len, p, q) == Block(lo, len - 1, p, q) + {n};
      } else {
        assert Block(lo, len, p, q) == Block(lo, len - 1, p, q);
      }
    }
  }

  /** Every block of `len` consecutive indices holds the floor or the ceiling of its own share. */
  lemma BlockShare(lo: nat, len: nat, p: nat, q: nat)
    requires q > 0 && p <= q
    ensures Floor(len, p, q) <= |Block(lo, len, p, q)| <= CeilDiv(len * p, q)
  {
    hide Floor, CeilDiv;
    BlockCount(lo, len, p, q);
    FloorMoves(lo, len, p, q);
  }

  /** Exactly floor(count * p/q) of a list are chosen. */
  lemma ShareExact(count: nat, p: nat, q: nat)
    requires q > 0 && p <= q
    ensures |ChosenIndices(count, p, q)| == Floor(count, p, q) == count * p / q
  {
    BlockCount(0, count, p, q);
    assert Block(0, count, p, q) == ChosenIndices(count, p, q);
    FloorOfNone(p, q);
  }

  /** The chosen of a list, in order (`_chosen`), from index `n` on. */
  function ChosenFrom<T>(items: seq<T>, n: nat, p: nat, q: nat): (r: seq<T>)
    requires q > 0
    ensures forall x :: x in r ==> x in items
    decreases |items| - n
  {
    if n >= |items| then []
    else (if Chosen(n, p, q) then [items[n]] else []) + ChosenFrom(items, n + 1, p, q)
  }

  /** The chosen of a list are as many as the chosen indices. */
  lemma {:induction false} ChosenCount<T>(items: seq<T>, n: nat, p: nat, q: nat)
    requires q > 0 && p <= q && n <= |items|
    ensures |ChosenFrom(items, n, p, q)| == Floor(|items|, p, q) - Floor(n, p, q)
    decreases |items| - n
  {
    hide Floor;
    if n < |items| {
      ChosenCount(items, n + 1, p, q);
      UnitStep(n, p, q);
    }
  }

  lemma ChosenStep<T>(items: seq<T>, n: nat, p: nat, q: nat)
    requires q > 0 && n < |items|
    ensures ChosenFrom(items, n, p, q) ==
            if Chosen(n, p, q) then [items[n]] + ChosenFrom(items, n + 1, p, q) else ChosenFrom(items, n + 1, p, q)
  {
    hide Chosen;
  }

  /** The chosen items are those at the chosen indices, in order: the item at a chosen index `i` is behind as many
      as were chosen before it. */
  lemma {:induction false} ChosenAt<T>(items: seq<T>, n: nat, p: nat, q: nat, i: nat)
    requires q > 0 && p <= q && n <= i < |items| && Chosen(i, p, q)
    ensures var k := Floor(i, p, q) - Floor(n, p, q);
            0 <= k < |ChosenFrom(items, n, p, q)| && ChosenFrom(items, n, p, q)[k] == items[i]
    decreases |items| - n
  {
    hide Floor, ChosenFrom;
    UnitStep(n, p, q);
    ChosenStep(items, n, p, q);
    if n < i {
      ChosenAt(items, n + 1, p, q, i);
      if Chosen(n, p, q) {
        var k := Floor(i, p, q) - Floor(n + 1, p, q);
        assert ([items[n]] + ChosenFrom(items, n + 1, p, q))[1 + k] == ChosenFrom(items, n + 1, p, q)[k];
      }
    }
  }

  lemma FloorOfNone(p: nat, q: nat)
    requires q > 0
    ensures Floor(0, p, q) == 0
  {
    assert 0 * p == 0;
    DivisionUnique(q, 0 / q, 0 % q, 0, 0);
  }

  /** How far n is from x/q, in units of 1/q. */
  function Off(n: int, x: nat, q: nat): nat {
    if n * q < x then x - n * q else n * q - x
  }

  /** `r` is Python's `round` of x/q: no whole number is nearer, and where another is as near, `r` is even. */
  ghost predicate IsRound(r: nat, x: nat, q: nat) {
    forall n: int :: Off(r, x, q) <= Off(n, x, q) && (Off(r, x, q) == Off(n, x, q) && n != r ==> r % 2 == 0)
  }

  /** How far the floor is, the number above it, and every other. */
  lemma OffFloor(x: nat, q: nat)
    requires q > 0
    ensures var (f, m) := (x / q, x % q);
            && Off(f, x, q) == m && Off(f + 1, x, q) == q - m
            && forall n: int :: n < f || n > f + 1 ==> Off(n, x, q) >= q
  {
    var (f, m) := (x / q, x % q);
    assert x == f * q + m && (f + 1) * q == f * q + q;
    forall n: int | n < f || n > f + 1 ensures Off(n, x, q) >= q {
      if n < f {
        MulAtLeast(f, n + 1, q);
      } else {
        MulAtLeast(n, f + 2, q);
      }
    }
  }

  /** The documented rounding is met exactly when the remainder is below half, or is half and the floor even. */
  lemma RoundedWhen(count: nat, p: nat, q: nat)
    requires q > 0 && p <= q
    ensures IsRound(|ChosenIndices(count, p, q)|, count * p, q) <==>
            2 * (count * p % q) < q || (2 * (count * p % q) == q && count * p / q % 2 == 0)
  {
    ShareExact(count, p, q);
    OffFloor(count * p, q);
    hide Off, Floor, ChosenIndices;
    var x := count * p;
    if IsRound(x / q, x, q) {
      assert Off(x / q, x, q) <= Off(x / q + 1, x, q);
    }
  }

  /** Half of three is one here, and two rounded. */
  lemma HalfOfThree()
    ensures |ChosenIndices(3, 1, 2)| == 1 && IsRound(2, 3, 2) && !IsRound(1, 3, 2)
  {
    ShareExact(3, 1, 2);
    OffFloor(3, 2);
    assert Off(1, 3, 2) == Off(2, 3, 2);
  }
}
