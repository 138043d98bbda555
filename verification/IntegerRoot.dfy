/** `h_isqrt`: the digit-by-digit integer square root on 32-bit words. */
module IntegerRoot {
  import opened Bytes

  type u32 = x: nat | x < 0x1_0000_0000

  /** `uint32_t` addition: it wraps. */
  function Add32(a: u32, b: u32): u32 { (a + b) % TWO32 }

  predicate PowerOfTwo(p: nat) {
    p == 1 || (p > 1 && p % 2 == 0 && PowerOfTwo(p / 2))
  }

  /** The digit worth `p` is accepted when its square fits: the two sums are the same comparison. */
  lemma Square(q: nat, p: nat)
    ensures (q + p) * (q + p) == q * q + 2 * q * p + p * p
  {
  }

  lemma SquareBelow(a: nat, b: nat)
    requires a <= b
    ensures a * a <= b * b
  {
    MulAtLeast(b, a, a);
    MulAtLeast(b, a, b);
  }

  /** Neither `r + b` nor the next `r` leaves 32 bits while the root stays below 2^16. */
  lemma NoWrap(q: nat, p: nat)
    requires q + 2 * p <= 0x1_0000 && p > 0
    ensures 2 * q * p + p * p < TWO32 && q * p + p * p < TWO32
  {
    Square(q, p);
    SquareBelow(q + p, 0xFFFF);
    assert q * p >= 0 && q * q >= 0;
  }

  /** `b` is the square of a power of two, or has run out. */
  ghost predicate Digit(b: nat, p: nat) { PowerOfTwo(p) && b == p * p }

  lemma NextDigit(b: nat, p: nat)
    requires Digit(b, p)
    ensures p >= 1
    ensures p > 1 ==> Digit(b / 4, p / 2) && b == 4 * (b / 4) && b / 4 > 0
    ensures p == 1 ==> b == 1
  {
    if p > 1 {
      var h := p / 2;
      assert p * p == 4 * (h * h);
      MulAtLeast(h, 1, h);
    }
  }

  lemma Twice(p: nat)
    requires PowerOfTwo(p)
    ensures PowerOfTwo(2 * p)
  {
    assert 2 * p / 2 == p && p >= 1;
  }

  lemma Doubles(p: nat)
    requires PowerOfTwo(p)
    ensures PowerOfTwo(8 * p)
  {
    hide PowerOfTwo;
    Twice(p);
    Twice(2 * p);
    Twice(4 * p);
  }

  lemma FirstDigit()
    ensures Digit(0x4000_0000, 0x8000)
  {
    assert PowerOfTwo(1);
    hide PowerOfTwo;
    Doubles(1);
    Doubles(8);
    Doubles(0x40);
    Doubles(0x200);
    Doubles(0x1000);
  }

  /** Between digits: the root so far is `q`, `x` is what is left of the input, and the root is below q + 2p. */
  ghost predicate Progress(input: nat, x: nat, r: nat, b: nat, q: nat, p: nat) {
    if b == 0 then r == q && q * q <= input < (q + 1) * (q + 1)
    else
      && Digit(b, p) && q + 2 * p <= 0x1_0000
      && r == 2 * q * p && x == input - q * q && 0 <= x && input < (q + 2 * p) * (q + 2 * p)
  }

  /** Doubled products at half the digit. */
  lemma Halved(q: nat, p: nat, h: nat)
    requires p == 2 * h
    ensures 2 * q * h == q * p && 2 * (q + p) * h == q * p + p * p
  {
    assert 2 * q * h == q * (2 * h);
    assert 2 * (q + p) * h == (q + p) * (2 * h);
    assert (q + p) * p == q * p + p * p;
  }

  lemma LastDigit(input: nat, x: nat, r: nat, q: nat)
    requires Progress(input, x, r, 1, q, 1)
    ensures if x >= r + 1 then Progress(input, x - (r + 1), r / 2 + 1, 0, q + 1, 0)
            else Progress(input, x, r / 2, 0, q, 0)
  {
    Square(q, 1);
  }

  lemma LaterDigit(input: nat, x: nat, r: nat, b: nat, q: nat, p: nat, h: nat)
    requires b > 0 && Progress(input, x, r, b, q, p) && p == 2 * h && Digit(b / 4, h) && h > 0
    ensures if x >= r + b then Progress(input, x - (r + b), r / 2 + b, b / 4, q + p, h)
            else Progress(input, x, r / 2, b / 4, q, h)
  {
    hide PowerOfTwo;
    Square(q, p);
    Halved(q, p, h);
    HalfOf(r, q, p);
    assert q + p + 2 * h == q + 2 * p && q + 2 * h == q + p;
    assert b / 4 > 0 by { MulAtLeast(h, 1, h); }
  }

  lemma HalfOf(r: nat, q: nat, p: nat)
    requires r == 2 * q * p
    ensures r / 2 == q * p
  {
    assert r == 2 * (q * p);
  }

  /** One turn of the main loop. */
  lemma Turn(input: nat, x: nat, r: nat, b: nat, q: nat, p: nat)
    requires b > 0 && Progress(input, x, r, b, q, p)
    ensures if x >= r + b then Progress(input, x - (r + b), r / 2 + b, b / 4, q + p, p / 2)
            else Progress(input, x, r / 2, b / 4, q, p / 2)
  {
    NextDigit(b, p);
    if p == 1 {
      LastDigit(input, x, r, q);
    } else {
      LaterDigit(input, x, r, b, q, p, p / 2);
    }
  }

  lemma Enter(input: nat, b: nat, p: nat)
    requires Digit(b, p) && p <= 0x8000 && 0 < b <= input < 4 * b
    ensures Progress(input, input, 0, b, 0, p)
  {
    assert (2 * p) * (2 * p) == 4 * (p * p);
  }

  lemma EnterZero()
    ensures forall p: nat :: Progress(0, 0, 0, 0, 0, p)
  {
  }

  lemma Leave(input: nat, x: nat, r: nat, q: nat, p: nat)
    requires Progress(input, x, r, 0, q, p)
    ensures r * r <= input < (r + 1) * (r + 1)
  {
  }

  /** Neither sum of a turn leaves 32 bits. */
  lemma InRange(input: nat, x: nat, r: u32, b: u32, q: nat, p: nat)
    requires b > 0 && Progress(input, x, r, b, q, p)
    ensures r + b < TWO32 && Add32(r, b) == r + b
    ensures r / 2 + b < TWO32 && Add32(r / 2, b) == r / 2 + b
  {
    NoWrap(q, p);
    HalfOf(r, q, p);
  }

  /** For every 32-bit input the loops end, no sum wraps, and the result is the integer square root. */
  method Isqrt(input: u32) returns (root: u32)
    ensures root * root <= input < (root + 1) * (root + 1)
  {
    hide PowerOfTwo, Digit;
    var x: u32, r: u32, b: u32 := input, 0, 0x4000_0000;
    ghost var p: nat, q: nat := 0x8000, 0;
    FirstDigit();
    while b > x
      invariant b == 0 ==> input == 0
      invariant b > 0 ==> Digit(b, p) && p <= 0x8000 && input < 4 * b
      decreases b
    {
      NextDigit(b, p);
      b, p := b / 4, p / 2;
    }
    EnterZero();
    if b > 0 { Enter(input, b, p); }
    root := Digits(input, b, p);
  }

  method Digits(input: u32, start: u32, ghost p0: nat) returns (r: u32)
    requires Progress(input, input, 0, start, 0, p0)
    ensures r * r <= input < (r + 1) * (r + 1)
  {
    hide PowerOfTwo, Digit, Progress, Add32;
    var x: u32, b: u32 := input, start;
    ghost var p: nat, q: nat := p0, 0;
    r := 0;
    while b != 0
      invariant Progress(input, x, r, b, q, p)
      decreases b
    {
      Turn(input, x, r, b, q, p);
      InRange(input, x, r, b, q, p);
      if x >= Add32(r, b) {
        x := x - Add32(r, b);
        r := Add32(r / 2, b);
        q := q + p;
      } else {
        r := r / 2;
      }
      b, p := b / 4, p / 2;
    }
    Leave(input, x, r, q, p);
  }
}
