/** Character classes of Python's regular expressions, and decimal numbers. */
module Text {

  /** What `\s` matches. */
  predicate IsSpace(c: char) {
    var n := c as int;
    9 <= n <= 13 || 28 <= n <= 32 || n == 0x85 || n == 0xA0 || n == 0x1680 || 0x2000 <= n <= 0x200A
    || n == 0x2028 || n == 0x2029 || n == 0x202F || n == 0x205F || n == 0x3000
  }

  /** Of the ASCII characters: the blank, the five of C's `isspace` and the four separators. */
  lemma AsciiSpaces(c: char)
    requires c as int < 128
    ensures IsSpace(c) <==> c in " \t\n\r" || c as int in {0x0B, 0x0C, 0x1C, 0x1D, 0x1E, 0x1F}
  {
  }

  /** What `\w` matches, on ASCII. */
  predicate IsWord(c: char) {
    'a' <= c <= 'z' || 'A' <= c <= 'Z' || '0' <= c <= '9' || c == '_'
  }

  function Decimal(n: nat): (s: string)
    ensures s != []
  {
    (if n < 10 then [] else Decimal(n / 10)) + ['0' + (n % 10) as char]
  }

  /** The number a decimal numeral stands for. */
  function Numeral(s: string): int {
    if s == [] then 0 else 10 * Numeral(s[..|s| - 1]) + (s[|s| - 1] as int - '0' as int)
  }

  lemma NumeralDigit(front: string, d: nat)
    requires d < 10
    ensures Numeral(front + ['0' + d as char]) == 10 * Numeral(front) + d
  {
    var s := front + ['0' + d as char];
    assert s[..|s| - 1] == front;
  }

  /** Reading a decimal numeral gives the number it was written for. */
  lemma {:induction false} DecimalReads(n: nat)
    ensures Numeral(Decimal(n)) == n
  {
    hide Numeral;
    if n < 10 {
      NumeralDigit([], n);
      NumeralNone();
    } else {
      DecimalReads(n / 10);
      NumeralDigit(Decimal(n / 10), n % 10);
    }
  }

  lemma NumeralNone()
    ensures Numeral([]) == 0
  {
  }

  /** No two numbers have one numeral. */
  lemma DecimalDistinct(a: nat, b: nat)
    requires Decimal(a) == Decimal(b)
    ensures a == b
  {
    DecimalReads(a);
    DecimalReads(b);
  }
}
