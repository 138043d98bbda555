/** Bytes, little-endian fields and fixed record layouts, as Python's `struct` reads and writes them. */
module Bytes {

  type byte = x: int | 0 <= x < 256

  /** What a Python call gives: a value, or an exception (whichever it is). */
  datatype Result<+T> = Ok(value: T) | Err {
    predicate IsFailure() { Err? }

    function PropagateFailure<U>(): Result<U>
      requires Err?
    {
      Err
    }

    function Extract(): T
      requires Ok?
    {
      value
    }
  }

  datatype Option<+T> = None | Some(value: T)

  const TWO32: int := 0x1_0000_0000
  const TWO31: int := 0x8000_0000

  function Pow256(k: nat): (r: nat)
    ensures r > 0
  {
    if k == 0 then 1 else 256 * Pow256(k - 1)
  }

  function ToLE(n: nat, k: nat): (s: seq<byte>)
    ensures |s| == k
  {
    if k == 0 then [] else [n % 256] + ToLE(n / 256, k - 1)
  }

  function FromLE(s: seq<byte>): (n: nat)
    ensures n < Pow256(|s|)
  {
    if s == [] then 0 else s[0] + 256 * FromLE(s[1..])
  }

  lemma {:induction false} FromToLE(n: nat, k: nat)
    requires n < Pow256(k)
    ensures FromLE(ToLE(n, k)) == n
  {
    if k > 0 {
      FromToLE(n / 256, k - 1);
      assert ToLE(n, k)[1..] == ToLE(n / 256, k - 1);
    }
  }

  lemma {:induction false} ToFromLE(s: seq<byte>)
    ensures ToLE(FromLE(s), |s|) == s
  {
    hide Pow256;
    if s != [] {
      ToFromLE(s[1..]);
      var f := FromLE(s[1..]);
      DigitOff(s[0], f);
      assert s == [s[0]] + s[1..];
    }
  }

  lemma DigitOff(d: byte, f: nat)
    ensures (d + 256 * f) % 256 == d && (d + 256 * f) / 256 == f
  {
  }

  lemma Pow256Of4()
    ensures Pow256(4) == TWO32
  {
    assert Pow256(1) == 256 && Pow256(2) == 0x1_0000 && Pow256(3) == 0x100_0000;
  }

  /** `struct.pack("<I", n)`. */
  function Le32(n: int): (s: seq<byte>)
    requires 0 <= n < TWO32
    ensures |s| == 4
  {
    ToLE(n, 4)
  }

  /** `struct.pack("<i", n)`: two's complement. */
  function LeI32(n: int): (s: seq<byte>)
    requires -TWO31 <= n < TWO31
    ensures |s| == 4
  {
    ToLE(if n < 0 then n + TWO32 else n, 4)
  }

  predicate FitsU32(n: int) { 0 <= n < TWO32 }

  predicate FitsI32(n: int) { -TWO31 <= n < TWO31 }

  /** `struct.unpack_from("<I", b, off)`, in range. */
  function U32(b: seq<byte>, off: nat): (n: int)
    requires off + 4 <= |b|
    ensures FitsU32(n)
  {
    Pow256Of4();
    FromLE(b[off..off + 4])
  }

  /** `struct.unpack_from("<i", b, off)`, in range. */
  function I32(b: seq<byte>, off: nat): (n: int)
    requires off + 4 <= |b|
    ensures FitsI32(n)
  {
    var u := U32(b, off);
    if u >= TWO31 then u - TWO32 else u
  }

  lemma U32OfLe32(b: seq<byte>, off: nat, n: int)
    requires FitsU32(n) && off + 4 <= |b| && b[off..off + 4] == Le32(n)
    ensures U32(b, off) == n
  {
    Pow256Of4();
    FromToLE(n, 4);
  }

  lemma I32OfLeI32(b: seq<byte>, off: nat, n: int)
    requires FitsI32(n) && off + 4 <= |b| && b[off..off + 4] == LeI32(n)
    ensures I32(b, off) == n
  {
    Pow256Of4();
    FromToLE(if n < 0 then n + TWO32 else n, 4);
  }

  lemma Le32OfU32(b: seq<byte>, off: nat)
    requires off + 4 <= |b|
    ensures Le32(U32(b, off)) == b[off..off + 4]
  {
    ToFromLE(b[off..off + 4]);
  }

  lemma LeI32OfI32(b: seq<byte>, off: nat)
    requires off + 4 <= |b|
    ensures LeI32(I32(b, off)) == b[off..off + 4]
  {
    ToFromLE(b[off..off + 4]);
  }

  /** Python's `b[lo:hi]`: both ends clamped to the buffer. */
  function Slice(b: seq<byte>, lo: nat, hi: nat): (s: seq<byte>)
    ensures lo <= hi <= |b| ==> s == b[lo..hi]
  {
    var h := if hi > |b| then |b| else hi;
    if lo >= h then [] else b[lo..h]
  }

  // --- a struct of unsigned little-endian fields ---------------------------

  /** The size in bytes of a struct whose fields have these widths. */
  function Size(fmt: seq<nat>): nat {
    if fmt == [] then 0 else fmt[0] + Size(fmt[1..])
  }

  predicate Fits(fmt: seq<nat>, vals: seq<int>) {
    |fmt| == |vals| && forall k :: 0 <= k < |fmt| ==> 0 <= vals[k] < Pow256(fmt[k])
  }

  /** `struct.pack`: raises when a value does not fit its field. */
  function Pack(fmt: seq<nat>, vals: seq<int>): (r: Result<seq<byte>>)
    ensures r.Ok? <==> Fits(fmt, vals)
    ensures r.Ok? ==> |r.value| == Size(fmt)
  {
    if Fits(fmt, vals) then Ok(Packed(fmt, vals)) else Err
  }

  function Packed(fmt: seq<nat>, vals: seq<int>): (s: seq<byte>)
    requires Fits(fmt, vals)
    ensures |s| == Size(fmt)
  {
    if fmt == [] then [] else ToLE(vals[0], fmt[0]) + Packed(fmt[1..], vals[1..])
  }

  /** `struct.unpack`. */
  function Unpack(fmt: seq<nat>, s: seq<byte>): (vals: seq<int>)
    requires |s| == Size(fmt)
    ensures Fits(fmt, vals)
  {
    if fmt == [] then []
    else [FromLE(s[..fmt[0]])] + Unpack(fmt[1..], s[fmt[0]..])
  }

  lemma {:induction false} UnpackPacked(fmt: seq<nat>, vals: seq<int>)
    requires Fits(fmt, vals)
    ensures Unpack(fmt, Packed(fmt, vals)) == vals
  {
    if fmt != [] {
      var s := Packed(fmt, vals);
      FromToLE(vals[0], fmt[0]);
      assert s[..fmt[0]] == ToLE(vals[0], fmt[0]);
      assert s[fmt[0]..] == Packed(fmt[1..], vals[1..]);
      UnpackPacked(fmt[1..], vals[1..]);
    }
  }

  /** Where a field lies: behind the sizes of those before it. */
  lemma {:induction false} FieldAt(fmt: seq<nat>, s: seq<byte>, k: nat)
    requires |s| == Size(fmt) && k < |fmt|
    ensures Size(fmt[..k]) + fmt[k] <= |s|
    ensures Unpack(fmt, s)[k] == FromLE(s[Size(fmt[..k])..Size(fmt[..k]) + fmt[k]])
  {
    hide FromLE, Pow256;
    var w := fmt[0];
    if k == 0 {
      assert fmt[..0] == [] && s[0..w] == s[..w];
    } else {
      FieldAt(fmt[1..], s[w..], k - 1);
      assert fmt[..k][1..] == fmt[1..][..k - 1];
      SubSlice(s, w, |s|, Size(fmt[1..][..k - 1]), Size(fmt[1..][..k - 1]) + fmt[k]);
      assert s[w..|s|] == s[w..];
    }
  }

  lemma SubSlice(s: seq<byte>, lo: nat, hi: nat, i: nat, j: nat)
    requires lo <= hi <= |s| && i <= j <= hi - lo
    ensures s[lo..hi][i..j] == s[lo + i..lo + j]
  {
    var t := s[lo..hi];
    assert forall k :: 0 <= k < j - i ==> t[i..j][k] == t[i + k] == s[lo + i + k];
  }

  // --- writing into a buffer -----------------------------------------------

  /** `b[off:off+len(d)] = d`, in range: the buffer keeps its length. */
  function Splice(b: seq<byte>, off: nat, d: seq<byte>): (r: seq<byte>)
    requires off + |d| <= |b|
    ensures |r| == |b|
    ensures r[off..off + |d|] == d
    ensures forall k :: 0 <= k < |b| && !(off <= k < off + |d|) ==> r[k] == b[k]
  {
    b[..off] + d + b[off + |d|..]
  }

  function Zeros(n: nat): (s: seq<byte>)
    ensures |s| == n
  {
    seq(n, i => 0)
  }

  /** `_align`: the next multiple of `to`, or `n` itself for alignment 0. */
  function Align(n: nat, to: nat): (r: nat)
    ensures r >= n
    ensures to > 0 ==> r < n + to && r % to == 0
    ensures to == 0 ==> r == n
  {
    if to == 0 then n
    else
      var q := (n + to - 1) / to;
      AlignFacts(n, to);
      q * to
  }

  lemma AlignFacts(n: nat, to: nat)
    requires to > 0
    ensures var r := (n + to - 1) / to * to; n <= r < n + to && r % to == 0
  {
    var q := (n + to - 1) / to;
    var m := (n + to - 1) % to;
    assert n + to - 1 == q * to + m;
    MultipleMod(q, to);
  }

  lemma MultipleMod(q: nat, to: nat)
    requires to > 0
    ensures (q * to) % to == 0
  {
    var x := q * to;
    DivisionUnique(to, x / to, x % to, q, 0);
  }

  /** A quotient and a remainder below the divisor are determined by the number. */
  lemma DivisionUnique(to: int, q: int, m: int, q': int, m': int)
    requires 0 <= m < to && 0 <= m' < to
    requires q * to + m == q' * to + m'
    ensures q == q' && m == m'
  {
    if q > q' {
      MulAtLeast(q, q' + 1, to);
    } else if q < q' {
      MulAtLeast(q', q + 1, to);
    }
  }

  lemma MulAtLeast(a: int, b: int, c: int)
    requires a >= b && c >= 0
    ensures a * c >= b * c
    ensures b * c == (b - 1) * c + c
  {
  }
}
