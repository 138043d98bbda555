/** The base64 fields on the sweep's wire (section 4 of RFC 4648): `decode` with its 32-bit accumulator and
    its fixed buffer, and `put_encoded`. */
module Base64Wire {
  import opened Bytes

  /** The character of a six-bit value. */
  function Char(d: nat): (c: char)
    requires d < 64
    ensures Digit(c) == Some(d)
  {
    if d < 26 then 'A' + d as char
    else if d < 52 then 'a' + (d - 26) as char
    else if d < 62 then '0' + (d - 52) as char
    else if d == 62 then '+' else '/'
  }

  /** The place of a character in the alphabet, none for any other character, `=` among them. */
  function Digit(c: char): (d: Option<nat>)
    ensures d.Some? ==> d.value < 64
  {
    if 'A' <= c <= 'Z' then Some(c as int - 'A' as int)
    else if 'a' <= c <= 'z' then Some(c as int - 'a' as int + 26)
    else if '0' <= c <= '9' then Some(c as int - '0' as int + 52)
    else if c == '+' then Some(62)
    else if c == '/' then Some(63)
    else None
  }

  const UPPER: string := "ABCDEFGHIJKLMNOPQRSTUVWXYZ"
  const LOWER: string := "abcdefghijklmnopqrstuvwxyz"
  const FIGURES: string := "0123456789"

  /** The alphabet of table 1 of RFC 4648. */
  const ALPHABET: string := UPPER + LOWER + FIGURES + "+/"

  /** A character's value is its place in the alphabet, and a character that is not in it has none. */
  lemma AlphabetIs(c: char, d: nat)
    ensures |ALPHABET| == 64
    ensures Digit(c) == Some(d) <==> d < 64 && ALPHABET[d] == c
  {
    if d < 64 {
      LetterAt(d);
    }
  }

  lemma LetterAt(d: nat)
    requires d < 64
    ensures ALPHABET[d] == Char(d)
  {
    if d < 26 {
      UpperAt(d);
    } else if d < 52 {
      LowerAt(d - 26);
    } else if d < 62 {
      FigureAt(d - 52);
    } else {
      assert ALPHABET[62..] == "+/";
    }
  }

  lemma UpperAt(d: nat)
    requires d < 26
    ensures ALPHABET[d] == 'A' + d as char
  {
    assert ALPHABET[d] == UPPER[d];
    assert UPPER[d] as int == 'A' as int + d;
  }

  lemma LowerAt(d: nat)
    requires d < 26
    ensures ALPHABET[26 + d] == 'a' + d as char
  {
    assert ALPHABET[26 + d] == LOWER[d];
    assert LOWER[d] as int == 'a' as int + d;
  }

  lemma FigureAt(d: nat)
    requires d < 10
    ensures ALPHABET[52 + d] == '0' + d as char
  {
    assert ALPHABET[52 + d] == FIGURES[d];
    assert FIGURES[d] as int == '0' as int + d;
  }

  // --- the decoder ---------------------------------------------------------

  /** `v >> bits`, for the counts of bits the decoder holds after a byte is taken. */
  function Shifted(v: nat, bits: nat): nat
    requires bits in {0, 2, 4, 6}
  {
    if bits == 0 then v else if bits == 2 then v / 4 else if bits == 4 then v / 16 else v / 64
  }

  /** The unsigned 32-bit accumulator takes six more bits. */
  function Take(v: nat, d: nat): (r: nat)
    ensures r < TWO32
  {
    (v * 64 + d) % TWO32
  }

  /** The decoder from some point on, `bits` bits of `v` not yet given out. */
  function Decoded(s: string, v: nat, bits: nat): (r: seq<byte>)
    requires bits in {0, 2, 4, 6}
    decreases s
  {
    if s == [] then []
    else if Digit(s[0]).None? then Decoded(s[1..], v, bits)
    else
      var v' := Take(v, Digit(s[0]).value);
      if bits == 0 then Decoded(s[1..], v', 6)
      else [Shifted(v', bits - 2) % 256] + Decoded(s[1..], v', bits - 2)
  }

  /** The characters of the alphabet, in order. */
  function Digits(s: string): string {
    if s == [] then [] else (if Digit(s[0]).Some? then [s[0]] else []) + Digits(s[1..])
  }

  /** Every other character is passed over, wherever it stands. */
  lemma {:induction false} OthersPassedOver(s: string, v: nat, bits: nat)
    requires bits in {0, 2, 4, 6}
    ensures Decoded(s, v, bits) == Decoded(Digits(s), v, bits)
    decreases s
  {
    hide Digit, Take, Shifted;
    if s != [] {
      var t := Digits(s[1..]);
      if Digit(s[0]).None? {
        OthersPassedOver(s[1..], v, bits);
        assert Digits(s) == t;
      } else {
        assert Digits(s)[1..] == t;
        OthersPassedOver(s[1..], Take(v, Digit(s[0]).value), if bits == 0 then 6 else bits - 2);
      }
    }
  }

  /** Six bits a character, eight bits a byte. */
  lemma {:induction false} DecodedSize(s: string, v: nat, bits: nat)
    requires bits in {0, 2, 4, 6}
    ensures 8 * |Decoded(s, v, bits)| <= 6 * |s| + bits
    decreases s
  {
    if s != [] {
      var v' := if Digit(s[0]).None? then v else Take(v, Digit(s[0]).value);
      if Digit(s[0]).None? {
        DecodedSize(s[1..], v, bits);
      } else {
        DecodedSize(s[1..], v', if bits == 0 then 6 else bits - 2);
      }
    }
  }

  lemma {:induction false} DecodedStep(s: string, i: nat, v: nat, bits: nat)
    requires i < |s| && bits in {0, 2, 4, 6}
    ensures Decoded(s[i..], v, bits) ==
            if Digit(s[i]).None? then Decoded(s[i + 1..], v, bits)
            else var v' := Take(v, Digit(s[i]).value);
              if bits == 0 then Decoded(s[i + 1..], v', 6)
              else [Shifted(v', bits - 2) % 256] + Decoded(s[i + 1..], v', bits - 2)
  {
    assert s[i..][0] == s[i] && s[i..][1..] == s[i + 1..];
  }

  lemma DecodedNone()
    ensures forall v: nat, bits: nat :: bits in {0, 2, 4, 6} ==> Decoded([], v, bits) == []
  {
  }

  /** `decode`, of a text without NUL: the bytes and their count, in a buffer the terminator still fits. */
  method Decode(s: string) returns (r: array<byte>, o: nat)
    ensures r.Length == |s| / 4 * 3 + 4 && o < r.Length
    ensures r[..o] == Decoded(s, 0, 0) && r[o] == 0
  {
    hide Shifted, Take, Digit, Decoded;
    ghost var all := Decoded(s, 0, 0);
    r := new byte[|s| / 4 * 3 + 4];
    o := 0;
    var v, bits := 0, 0;
    DecodedSize(s, 0, 0);
    Room(|s|, |all|);
    assert s[0..] == s;
    for i := 0 to |s|
      invariant bits in {0, 2, 4, 6} && o <= |all| < r.Length
      invariant r[..o] == all[..o] && Decoded(s[i..], v, bits) == all[o..]
    {
      DecodedStep(s, i, v, bits);
      var d := Digit(s[i]);
      if d.None? { continue; }
      v := Take(v, d.value);
      bits := bits + 6;
      if bits >= 8 {
        bits := bits - 8;
        assert all[o..][0] == Shifted(v, bits) % 256 && all[o..][1..] == all[o + 1..];
        r[o] := Shifted(v, bits) % 256;
        o := o + 1;
      }
    }
    DecodedNone();
    assert s[|s|..] == [];
    r[o] := 0;
  }

  lemma Room(n: nat, size: nat)
    requires 8 * size <= 6 * n
    ensures size < n / 4 * 3 + 4
  {
  }

  // --- the encoder ---------------------------------------------------------

  /** The 24 bits of a group, missing bytes zero. */
  function Group(d: seq<byte>): (v: nat)
    requires d != []
    ensures v < 0x100_0000
  {
    At(d, 0) * 0x1_0000 + At(d, 1) * 256 + At(d, 2)
  }

  /** A byte of a group, zero where it is missing. */
  function At(d: seq<byte>, i: nat): (r: int)
    ensures 0 <= r < 256
  {
    if i < |d| then d[i] else 0
  }

  /** The four characters of 24 bits, of which `n` bytes are there. */
  function FourChars(v: nat, n: nat): (q: string)
    requires v < 0x100_0000
    ensures |q| == 4
  {
    [Char(v / 0x4_0000), Char(v / 0x1000 % 64), if n > 1 then Char(v / 64 % 64) else '=', if n > 2 then Char(v % 64) else '=']
  }

  /** The four characters of the first group. */
  function Quad(d: seq<byte>): (q: string)
    requires d != []
    ensures |q| == 4
  {
    FourChars(Group(d), |d|)
  }

  function DigitOf(c: char): nat { if Digit(c).Some? then Digit(c).value else 0 }

  /** The four characters of three bytes are the same 24-bit number, its highest digits first; of one or two
      bytes the number ends in zeros and the digits that hold nothing but those are `=`. */
  lemma QuadIsNumber(d: seq<byte>)
    requires d != []
    ensures var q := Quad(d);
            && ((DigitOf(q[0]) * 64 + DigitOf(q[1])) * 64 + DigitOf(q[2])) * 64 + DigitOf(q[3]) == (At(d, 0) * 256 + At(d, 1)) * 256 + At(d, 2)
            && q[0] != '=' && q[1] != '=' && (q[2] == '=' <==> |d| == 1) && (q[3] == '=' <==> |d| <= 2)
  {
    hide FourChars, DigitOf;
    QuadDigits(Group(d), |d|);
    Digits24(Group(d));
    ZeroTail(d);
  }

  lemma Digits24(v: nat)
    requires v < 0x100_0000
    ensures ((v / 0x4_0000 * 64 + v / 0x1000 % 64) * 64 + v / 64 % 64) * 64 + v % 64 == v
  {
    assert v / 0x1000 == v / 64 / 64 && v / 0x4_0000 == v / 0x1000 / 64;
    assert v / 0x1000 == v / 0x4_0000 * 64 + v / 0x1000 % 64;
    assert v / 64 == v / 0x1000 * 64 + v / 64 % 64;
  }

  lemma ZeroTail(d: seq<byte>)
    requires d != []
    ensures |d| <= 2 ==> Group(d) % 64 == 0
    ensures |d| <= 1 ==> Group(d) / 64 % 64 == 0
  {
    if |d| <= 1 {
      assert Group(d) == 64 * (64 * (16 * At(d, 0)));
    } else if |d| == 2 {
      assert Group(d) == 64 * (At(d, 0) * 1024 + At(d, 1) * 4);
    }
  }

  lemma QuadDigits(v: nat, n: nat)
    requires v < 0x100_0000
    ensures var q := FourChars(v, n);
            && DigitOf(q[0]) == v / 0x4_0000 && DigitOf(q[1]) == v / 0x1000 % 64
            && (n > 1 ==> DigitOf(q[2]) == v / 64 % 64) && (n <= 1 ==> q[2] == '=') && DigitOf('=') == 0
            && (n > 2 ==> DigitOf(q[3]) == v % 64) && (n <= 2 ==> q[3] == '=')
            && q[0] != '=' && q[1] != '=' && (n > 1 ==> q[2] != '=') && (n > 2 ==> q[3] != '=')
  {
    assert Digit('=').None?;
  }

  function Encoded(d: seq<byte>): string {
    if d == [] then [] else Quad(d) + if |d| <= 3 then [] else Encoded(d[3..])
  }

  lemma EncodedStep(d: seq<byte>, i: nat, out: string)
    requires i < |d|
    ensures d[i..] != [] && Group(d[i..]) == At(d, i) * 0x1_0000 + At(d, i + 1) * 256 + At(d, i + 2)
    ensures out + Encoded(d[i..]) == out + Quad(d[i..]) + if i + 3 < |d| then Encoded(d[i + 3..]) else []
  {
    hide Quad;
    var t := d[i..];
    assert At(t, 0) == At(d, i) && At(t, 1) == At(d, i + 1) && At(t, 2) == At(d, i + 2);
    assert i + 3 < |d| ==> t[3..] == d[i + 3..];
  }

  method PutEncoded(d: seq<byte>) returns (out: string)
    ensures out == Encoded(d) + "\n"
    ensures Decoded(out, 0, 0) == d
  {
    hide FourChars, Encoded, Decoded, At, Group;
    out := [];
    var i := 0;
    EncodedStart(d);
    while i < |d|
      invariant 0 <= i
      invariant Encoded(d) == out + if i < |d| then Encoded(d[i..]) else []
    {
      EncodedStep(d, i, out);
      var v := At(d, i) * 0x1_0000 + At(d, i + 1) * 256 + At(d, i + 2);
      out := out + FourChars(v, |d| - i);
      i := i + 3;
    }
    out := out + "\n";
    EncodedDecodes(d, 0);
  }

  lemma EncodedStart(d: seq<byte>)
    ensures Encoded(d) == [] + if 0 < |d| then Encoded(d[0..]) else []
  {
    assert d[0..] == d && [] + Encoded(d) == Encoded(d);
  }

  // --- the round trip ------------------------------------------------------

  lemma Div(x: int, m: int, q: int, r: int)
    requires x == q * m + r && 0 <= r < m
    ensures x / m == q && x % m == r
  {
    DivisionUnique(m, x / m, x % m, q, r);
  }

  /** The wrapped accumulator keeps the bits that can still be given out. */
  lemma TakeLow(v: nat, d: nat)
    requires d < 64
    ensures Take(v, d) % 0x1000 == v % 64 * 64 + d
  {
    var w := v * 64 + d;
    var t := w % TWO32;
    Div(t, 0x1000, v / 64 - w / TWO32 * 0x10_0000, v % 64 * 64 + d);
  }

  /** A byte given out two characters deep depends on those two characters only. */
  lemma TwoTaken(v: nat, a: nat, b: nat)
    requires a < 64 && b < 64
    ensures var w := Take(Take(v, a), b);
            && Shifted(w, 4) % 256 == a * 4 + b / 16
            && Shifted(w, 2) % 256 == a % 16 * 16 + b / 4
            && Shifted(w, 0) % 256 == a % 4 * 64 + b
  {
    hide Take;
    var v1 := Take(v, a);
    var w := Take(v1, b);
    TakeLow(v, a);
    TakeLow(v1, b);
    Div(v1, 64, v1 / 0x1000 * 64 + v % 64, a);
    LowTwelve(w, w / 0x1000, a, b);
  }

  lemma LowTwelve(w: nat, k: nat, a: nat, b: nat)
    requires a < 64 && b < 64 && w == k * 0x1000 + a * 64 + b
    ensures w / 16 % 256 == a * 4 + b / 16
    ensures w / 4 % 256 == a % 16 * 16 + b / 4
    ensures w % 256 == a % 4 * 64 + b
  {
    Div(w, 16, k * 256 + a * 4 + b / 16, b % 16);
    Div(w / 16, 256, k, a * 4 + b / 16);
    Div(w, 4, k * 1024 + a * 16 + b / 4, b % 4);
    Div(w / 4, 256, k * 4 + a / 16, a % 16 * 16 + b / 4);
    Div(w, 256, k * 16 + a / 4, a % 4 * 64 + b);
  }

  lemma OneDecoded(s: string, c: char, v: nat, bits: nat)
    requires bits in {0, 2, 4, 6}
    ensures Decoded([c] + s, v, bits) ==
            if Digit(c).None? then Decoded(s, v, bits)
            else var v' := Take(v, Digit(c).value);
              if bits == 0 then Decoded(s, v', 6)
              else [Shifted(v', bits - 2) % 256] + Decoded(s, v', bits - 2)
  {
    assert ([c] + s)[1..] == s;
  }

  /** Four characters of the alphabet give three bytes, whatever the accumulator held. */
  lemma FourDecoded(a: nat, b: nat, c: nat, d: nat, s: string, v: nat)
    requires a < 64 && b < 64 && c < 64 && d < 64
    ensures var v4 := Take(Take(Take(Take(v, a), b), c), d);
            Decoded([Char(a), Char(b), Char(c), Char(d)] + s, v, 0) ==
            [a * 4 + b / 16, b % 16 * 16 + c / 4, c % 4 * 64 + d] + Decoded(s, v4, 0)
  {
    hide Decoded, Take, Shifted, Char, Digit;
    var (v1, v2) := (Take(v, a), Take(Take(v, a), b));
    var v3 := Take(v2, c);
    var v4 := Take(v3, d);
    TwoTaken(v, a, b);
    TwoTaken(v1, b, c);
    TwoTaken(v2, c, d);
    assert [Char(a), Char(b), Char(c), Char(d)] + s == [Char(a)] + ([Char(b)] + ([Char(c)] + ([Char(d)] + s)));
    OneDecoded([Char(b)] + ([Char(c)] + ([Char(d)] + s)), Char(a), v, 0);
    OneDecoded([Char(c)] + ([Char(d)] + s), Char(b), v1, 6);
    OneDecoded([Char(d)] + s, Char(c), v2, 4);
    OneDecoded(s, Char(d), v3, 2);
  }

  /** The six-bit pieces of a group. */
  lemma Pieces(d: seq<byte>)
    requires d != []
    ensures var v := Group(d);
            && v / 0x4_0000 == At(d, 0) / 4 && v / 0x1000 % 64 == At(d, 0) % 4 * 16 + At(d, 1) / 16
            && v / 64 % 64 == At(d, 1) % 16 * 4 + At(d, 2) / 64 && v % 64 == At(d, 2) % 64
  {
    Cut(At(d, 0), At(d, 1), At(d, 2));
  }

  lemma Cut(x: int, y: int, z: int)
    requires 0 <= x < 256 && 0 <= y < 256 && 0 <= z < 256
    ensures var v := x * 0x1_0000 + y * 256 + z;
            && v / 0x4_0000 == x / 4 && v / 0x1000 % 64 == x % 4 * 16 + y / 16
            && v / 64 % 64 == y % 16 * 4 + z / 64 && v % 64 == z % 64
  {
    var v := x * 0x1_0000 + y * 256 + z;
    Div(v, 0x4_0000, x / 4, x % 4 * 0x1_0000 + y * 256 + z);
    Div(v, 0x1000, x * 16 + y / 16, y % 16 * 256 + z);
    Div(x * 16 + y / 16, 64, x / 4, x % 4 * 16 + y / 16);
    Div(v, 64, x * 1024 + y * 4 + z / 64, z % 64);
    Div(x * 1024 + y * 4 + z / 64, 64, x * 16 + y / 16, y % 16 * 4 + z / 64);
  }

  /** The pieces put together again. */
  lemma Rejoined(x: int, y: int, z: int)
    requires 0 <= x < 256 && 0 <= y < 256 && 0 <= z < 256
    ensures var (a, b, c, e) := (x / 4, x % 4 * 16 + y / 16, y % 16 * 4 + z / 64, z % 64);
            && 0 <= a < 64 && 0 <= b < 64 && 0 <= c < 64 && 0 <= e < 64
            && a * 4 + b / 16 == x && b % 16 * 16 + c / 4 == y && c % 4 * 64 + e == z
  {
    Div(x % 4 * 16 + y / 16, 16, x % 4, y / 16);
    Div(y % 16 * 4 + z / 64, 4, y % 16, z / 64);
  }

  /** The characters of a group, piece by piece. */
  lemma QuadPieces(d: seq<byte>)
    requires d != []
    ensures var (x, y, z) := (At(d, 0), At(d, 1), At(d, 2));
            var (a, b, c, e) := (x / 4, x % 4 * 16 + y / 16, y % 16 * 4 + z / 64, z % 64);
            && a < 64 && b < 64 && c < 64
            && Quad(d) == [Char(a), Char(b), if |d| > 1 then Char(c) else '=', if |d| > 2 then Char(e) else '=']
  {
    hide Char, Group, At;
    Pieces(d);
    Rejoined(At(d, 0), At(d, 1), At(d, 2));
  }

  /** A whole group decodes to its three bytes. */
  lemma WholeGroup(d: seq<byte>, s: string, v: nat) returns (v': nat)
    requires |d| >= 3
    ensures Decoded(Quad(d) + s, v, 0) == [d[0], d[1], d[2]] + Decoded(s, v', 0)
  {
    hide Decoded, Take, Char, Quad;
    QuadPieces(d);
    Rejoined(d[0], d[1], d[2]);
    var (x, y, z) := (d[0] as int, d[1] as int, d[2] as int);
    var (a, b, c, e) := (x / 4, x % 4 * 16 + y / 16, y % 16 * 4 + z / 64, z % 64);
    FourDecoded(a, b, c, e, s, v);
    v' := Take(Take(Take(Take(v, a), b), c), e);
  }

  /** Only padding and the line end follow: nothing more is given out. */
  lemma PaddingDecoded(v: nat, bits: nat)
    requires bits in {0, 2, 4, 6}
    ensures Decoded("\n", v, bits) == [] && Decoded("=\n", v, bits) == [] && Decoded("==\n", v, bits) == []
  {
    assert "\n"[1..] == "" && "=\n"[1..] == "\n" && "==\n"[1..] == "=\n";
  }

  /** Two characters of the alphabet, then padding: one byte. */
  lemma TwoDecoded(a: nat, b: nat, v: nat)
    requires a < 64 && b < 64
    ensures Decoded([Char(a), Char(b), '=', '=', '\n'], v, 0) == [a * 4 + b / 16]
  {
    hide Decoded, Take, Char, Shifted, Digit;
    var v1 := Take(v, a);
    TwoTaken(v, a, b);
    PaddingDecoded(Take(v1, b), 4);
    assert [Char(a), Char(b), '=', '=', '\n'] == [Char(a)] + ([Char(b)] + "==\n");
    OneDecoded([Char(b)] + "==\n", Char(a), v, 0);
    OneDecoded("==\n", Char(b), v1, 6);
  }

  /** Three, then padding: two bytes. */
  lemma ThreeDecoded(a: nat, b: nat, c: nat, v: nat)
    requires a < 64 && b < 64 && c < 64
    ensures Decoded([Char(a), Char(b), Char(c), '=', '\n'], v, 0) == [a * 4 + b / 16, b % 16 * 16 + c / 4]
  {
    hide Decoded, Take, Char, Shifted, Digit;
    var v1 := Take(v, a);
    var v2 := Take(v1, b);
    TwoTaken(v, a, b);
    TwoTaken(v1, b, c);
    PaddingDecoded(Take(v2, c), 2);
    assert [Char(a), Char(b), Char(c), '=', '\n'] == [Char(a)] + ([Char(b)] + ([Char(c)] + "=\n"));
    OneDecoded([Char(b)] + ([Char(c)] + "=\n"), Char(a), v, 0);
    OneDecoded([Char(c)] + "=\n", Char(b), v1, 6);
    OneDecoded("=\n", Char(c), v2, 4);
  }

  lemma ShortGroup(d: seq<byte>, v: nat)
    requires 1 <= |d| <= 2
    ensures Decoded(Quad(d) + "\n", v, 0) == d
  {
    hide Decoded, Take, Char, Quad, Shifted;
    QuadPieces(d);
    var (x, y, z) := (At(d, 0), At(d, 1), At(d, 2));
    Rejoined(x, y, z);
    var (a, b, c) := (x / 4, x % 4 * 16 + y / 16, y % 16 * 4 + z / 64);
    if |d| == 1 {
      assert Quad(d) + "\n" == [Char(a), Char(b), '=', '=', '\n'];
      TwoDecoded(a, b, v);
    } else {
      assert Quad(d) + "\n" == [Char(a), Char(b), Char(c), '=', '\n'];
      ThreeDecoded(a, b, c, v);
    }
  }

  /** For every byte sequence, and whatever the accumulator held before: decoding what was encoded gives it. */
  lemma {:induction false} EncodedDecodes(d: seq<byte>, v: nat)
    ensures Decoded(Encoded(d) + "\n", v, 0) == d
    decreases |d|
  {
    hide Quad;
    if d == [] {
      PaddingDecoded(v, 0);
    } else if |d| <= 2 {
      assert Encoded(d) + "\n" == Quad(d) + "\n";
      ShortGroup(d, v);
    } else {
      var more := if |d| == 3 then [] else Encoded(d[3..]);
      assert Encoded(d) + "\n" == Quad(d) + (more + "\n");
      var v' := WholeGroup(d, more + "\n", v);
      if |d| == 3 {
        PaddingDecoded(v', 0);
      } else {
        EncodedDecodes(d[3..], v');
      }
      assert d == [d[0], d[1], d[2]] + d[3..];
    }
  }
}
