/** `win_argv`: a list of arguments as one Windows command line, against the rules by which
    CommandLineToArgvW documents that it reads one back. */
module WindowsArguments {
  import opened Text

  const QUOTE: char := '"'
  const SLASH: char := '\\'

  function Slashes(n: nat): (s: string)
    ensures |s| == n
  {
    if n == 0 then [] else Slashes(n - 1) + [SLASH]
  }

  // --- the writer ----------------------------------------------------------

  /** An argument goes as it is when it is not empty and has neither a space nor a quote. */
  predicate Plain(a: string) {
    a != [] && forall i :: 0 <= i < |a| ==> !IsSpace(a[i]) && a[i] != QUOTE
  }

  /** The inside of a quoted argument, `n` backslashes held back. */
  function Escaped(a: string, n: nat): string
    decreases a
  {
    if a == [] then Slashes(n * 2)
    else if a[0] == SLASH then Escaped(a[1..], n + 1)
    else Slashes(if a[0] == QUOTE then n * 2 + 1 else n) + [a[0]] + Escaped(a[1..], 0)
  }

  function Word(a: string): (w: string)
    ensures w != []
  {
    if Plain(a) then a else [QUOTE] + Escaped(a, 0) + [QUOTE]
  }

  function Line(args: seq<string>): string {
    if args == [] then []
    else if |args| == 1 then Word(args[0])
    else Word(args[0]) + " " + Line(args[1..])
  }

  // --- the reader ----------------------------------------------------------

  predicate Blank(c: char) { c == ' ' || c == '\t' }

  /** One argument from inside it, `n` backslashes just read: 2k of them before a quote are k and the quote
      opens or closes; 2k+1 are k and a quote that is text; elsewhere each is itself; a blank outside quotes
      ends the argument. Gives the argument and what is left of the line. */
  function ReadArgument(s: string, quoted: bool, n: nat): (r: (string, string))
    ensures |r.1| <= |s|
    ensures s != [] && !Blank(s[0]) ==> |r.1| < |s|
    decreases s
  {
    if s == [] then (Slashes(n), [])
    else if s[0] == SLASH then ReadArgument(s[1..], quoted, n + 1)
    else if s[0] == QUOTE then
      if n % 2 == 1 then
        var (a, rest) := ReadArgument(s[1..], quoted, 0);
        (Slashes(n / 2) + [QUOTE] + a, rest)
      else
        var (a, rest) := ReadArgument(s[1..], !quoted, 0);
        (Slashes(n / 2) + a, rest)
    else if Blank(s[0]) && !quoted then (Slashes(n), s)
    else
      var (a, rest) := ReadArgument(s[1..], quoted, 0);
      (Slashes(n) + [s[0]] + a, rest)
  }

  /** The arguments of a line. */
  function ReadLine(s: string): seq<string>
    decreases |s|
  {
    if s == [] then []
    else if Blank(s[0]) then ReadLine(s[1..])
    else
      var (a, rest) := ReadArgument(s, false, 0);
      [a] + ReadLine(rest)
  }

  // --- reading what was written --------------------------------------------

  lemma {:induction false} SlashesAdd(n: nat, m: nat)
    ensures Slashes(n) + Slashes(m) == Slashes(n + m)
  {
    if m > 0 {
      SlashesAdd(n, m - 1);
      assert Slashes(n) + (Slashes(m - 1) + [SLASH]) == Slashes(n) + Slashes(m - 1) + [SLASH];
    } else {
      assert Slashes(n) + [] == Slashes(n);
    }
  }

  lemma SlashFirst(k: nat, s: string)
    requires k > 0
    ensures Slashes(k) + s == [SLASH] + (Slashes(k - 1) + s)
  {
    SlashesAdd(1, k - 1);
    assert Slashes(1) == [SLASH] by { assert Slashes(0) == []; }
  }

  lemma {:induction false} SlashesRead(k: nat, s: string, quoted: bool, n: nat)
    ensures ReadArgument(Slashes(k) + s, quoted, n) == ReadArgument(s, quoted, n + k)
    decreases k
  {
    if k == 0 {
      assert Slashes(0) + s == s;
    } else {
      SlashFirst(k, s);
      SlashesRead(k - 1, s, quoted, n + 1);
      hide Slashes;
      assert ([SLASH] + (Slashes(k - 1) + s))[1..] == Slashes(k - 1) + s;
    }
  }

  /** At the end of a written word: the line ends or a blank follows. */
  predicate AtEnd(tail: string) { tail == [] || tail[0] == ' ' }

  lemma EndRead(tail: string)
    requires AtEnd(tail)
    ensures ReadArgument(tail, false, 0) == ([], tail)
  {
  }

  /** A backslash held back, and one taken as text. */
  lemma HeldBack(n: nat, a: string)
    requires a != []
    ensures a[0] == SLASH ==> Slashes(n + 1) + a[1..] == Slashes(n) + a
    ensures Slashes(n) + [a[0]] + (Slashes(0) + a[1..]) == Slashes(n) + ([a[0]] + (Slashes(0) + a[1..])) == Slashes(n) + a
  {
  }

  lemma {:induction false} PlainRead(a: string, n: nat, tail: string)
    requires AtEnd(tail) && forall i :: 0 <= i < |a| ==> !IsSpace(a[i]) && a[i] != QUOTE
    ensures ReadArgument(a + tail, false, n) == (Slashes(n) + a, tail)
    decreases a
  {
    hide Slashes;
    if a == [] {
      assert a + tail == tail && Slashes(n) + a == Slashes(n);
    } else {
      assert (a + tail)[0] == a[0] && (a + tail)[1..] == a[1..] + tail;
      PlainRead(a[1..], if a[0] == SLASH then n + 1 else 0, tail);
      HeldBack(n, a);
    }
  }

  /** The reader's turn at a quote. */
  lemma QuoteTurn(n: nat, s: string, quoted: bool)
    ensures var (a, rest) := ReadArgument(s, if n % 2 == 1 then quoted else !quoted, 0);
            ReadArgument([QUOTE] + s, quoted, n) == (Slashes(n / 2) + (if n % 2 == 1 then [QUOTE] + a else a), rest)
  {
    hide Slashes;
    assert ([QUOTE] + s)[1..] == s;
    var (a, rest) := ReadArgument(s, quoted, 0);
    assert Slashes(n / 2) + [QUOTE] + a == Slashes(n / 2) + ([QUOTE] + a);
  }

  lemma QuoteRead(n: nat, s: string, quoted: bool)
    ensures var (a, rest) := ReadArgument(s, quoted, 0);
            ReadArgument(Slashes(n * 2 + 1) + ([QUOTE] + s), quoted, 0) == (Slashes(n) + ([QUOTE] + a), rest)
    ensures var (a, rest) := ReadArgument(s, !quoted, 0);
            ReadArgument(Slashes(n * 2) + ([QUOTE] + s), quoted, 0) == (Slashes(n) + a, rest)
  {
    hide ReadArgument, Slashes;
    SlashesRead(n * 2 + 1, [QUOTE] + s, quoted, 0);
    SlashesRead(n * 2, [QUOTE] + s, quoted, 0);
    QuoteTurn(n * 2 + 1, s, quoted);
    QuoteTurn(n * 2, s, quoted);
  }

  lemma OtherRead(n: nat, c: char, s: string)
    requires c != SLASH && c != QUOTE
    ensures var (a, rest) := ReadArgument(s, true, 0);
            ReadArgument(Slashes(n) + ([c] + s), true, 0) == (Slashes(n) + [c] + a, rest)
  {
    SlashesRead(n, [c] + s, true, 0);
    assert ([c] + s)[1..] == s;
  }

  /** The escaped form of one character more. */
  lemma EscapedTurn(a: string, n: nat, tail: string)
    requires a != []
    ensures Escaped(a, n) + tail ==
            if a[0] == SLASH then Escaped(a[1..], n + 1) + tail
            else Slashes(if a[0] == QUOTE then n * 2 + 1 else n) + ([a[0]] + (Escaped(a[1..], 0) + tail))
  {
    hide Slashes;
  }

  lemma EscapedEnd(n: nat)
    ensures Escaped([], n) == Slashes(n * 2)
  {
  }

  lemma {:induction false} EscapedRead(a: string, n: nat, tail: string)
    requires AtEnd(tail)
    ensures ReadArgument(Escaped(a, n) + ([QUOTE] + tail), true, 0) == (Slashes(n) + a, tail)
    decreases a
  {
    hide ReadArgument, Slashes, Escaped;
    if a == [] {
      EscapedEnd(n);
      QuoteRead(n, tail, true);
      EndRead(tail);
      assert Slashes(n) + [] == Slashes(n);
    } else {
      HeldBack(n, a);
      EscapedRead(a[1..], if a[0] == SLASH then n + 1 else 0, tail);
      EscapedTurn(a, n, [QUOTE] + tail);
      var s := Escaped(a[1..], 0) + ([QUOTE] + tail);
      if a[0] == QUOTE {
        QuoteRead(n, s, true);
      } else if a[0] != SLASH {
        OtherRead(n, a[0], s);
      }
    }
  }

  lemma QuotedRead(a: string, tail: string)
    requires AtEnd(tail)
    ensures ReadArgument([QUOTE] + (Escaped(a, 0) + ([QUOTE] + tail)), false, 0) == (a, tail)
  {
    hide ReadArgument, Escaped;
    var s := Escaped(a, 0) + ([QUOTE] + tail);
    EscapedRead(a, 0, tail);
    QuoteRead(0, s, false);
    assert Slashes(0) + ([QUOTE] + s) == [QUOTE] + s;
    assert Slashes(0) + a == a && Slashes(0) + (Slashes(0) + a) == a;
  }

  /** A written word reads back, up to what follows it. */
  lemma WordRead(a: string, tail: string)
    requires AtEnd(tail)
    ensures ReadArgument(Word(a) + tail, false, 0) == (a, tail)
    ensures !Blank((Word(a) + tail)[0])
  {
    hide ReadArgument, Escaped;
    if Plain(a) {
      PlainRead(a, 0, tail);
      assert Slashes(0) + a == a;
    } else {
      assert Word(a) + tail == [QUOTE] + (Escaped(a, 0) + ([QUOTE] + tail));
      QuotedRead(a, tail);
    }
  }

  /** Only what needs quotes gets them: an argument goes as it is exactly when it is not empty and holds neither
      white space nor a quote. */
  lemma WordIsItself(a: string)
    ensures Word(a) == a <==> a != [] && forall i :: 0 <= i < |a| ==> !IsSpace(a[i]) && a[i] != QUOTE
  {
    hide IsSpace;
    EscapedLength(a, 0);
  }

  lemma {:induction false} EscapedLength(a: string, n: nat)
    ensures |Escaped(a, n)| >= |a| + n
    decreases a
  {
    if a != [] {
      EscapedLength(a[1..], if a[0] == SLASH then n + 1 else 0);
    }
  }

  /** For every list of arguments, the line reads back as exactly that list. */
  lemma {:induction false} LineReadsBack(args: seq<string>)
    ensures ReadLine(Line(args)) == args
  {
    hide ReadArgument, ReadLine, Line, Word;
    if args == [] {
      NothingRead();
    } else {
      LineReadsBack(args[1..]);
      LineParts(args);
      WordRead(args[0], Behind(args));
      FirstRead(Word(args[0]) + Behind(args), args[0], Behind(args));
      BehindRead(args);
      assert args == [args[0]] + args[1..];
    }
  }

  /** What follows the first word of a line. */
  function Behind(args: seq<string>): (tail: string)
    requires args != []
    ensures AtEnd(tail)
  {
    if |args| == 1 then [] else " " + Line(args[1..])
  }

  lemma NothingRead()
    ensures Line([]) == [] && ReadLine([]) == []
  {
  }

  lemma LineParts(args: seq<string>)
    requires args != []
    ensures Line(args) == Word(args[0]) + Behind(args)
  {
    hide Word;
    assert Word(args[0]) + [] == Word(args[0]);
    assert |args| > 1 ==> Word(args[0]) + " " + Line(args[1..]) == Word(args[0]) + (" " + Line(args[1..]));
  }

  lemma BehindRead(args: seq<string>)
    requires args != []
    ensures ReadLine(Behind(args)) == ReadLine(Line(args[1..]))
  {
    hide ReadArgument, Word;
    if |args| > 1 {
      assert Behind(args)[1..] == Line(args[1..]);
    }
  }

  lemma FirstRead(s: string, a: string, rest: string)
    requires s != [] && !Blank(s[0]) && ReadArgument(s, false, 0) == (a, rest)
    ensures ReadLine(s) == [a] + ReadLine(rest)
  {
    hide ReadArgument;
  }

  // --- the loops -----------------------------------------------------------

  method QuoteArgument(a: string) returns (q: string)
    ensures q == [QUOTE] + Escaped(a, 0) + [QUOTE]
  {
    q := [QUOTE];
    var slashes := 0;
    for i := 0 to |a|
      invariant [QUOTE] + Escaped(a, 0) == q + Escaped(a[i..], slashes)
    {
      ghost var rest := a[i..];
      assert rest[0] == a[i] && rest[1..] == a[i + 1..];
      if a[i] == SLASH {
        slashes := slashes + 1;
        continue;
      }
      var more := Slashes(if a[i] == QUOTE then slashes * 2 + 1 else slashes) + [a[i]];
      assert q + (more + Escaped(a[i + 1..], 0)) == q + more + Escaped(a[i + 1..], 0);
      q := q + more;
      slashes := 0;
    }
    q := q + Slashes(slashes * 2) + [QUOTE];
  }

  /** `" ".join(words)`. */
  function Joined(words: seq<string>): string {
    if words == [] then [] else if |words| == 1 then words[0] else words[0] + " " + Joined(words[1..])
  }

  lemma {:induction false} JoinedLine(args: seq<string>, words: seq<string>)
    requires |words| == |args| && forall i :: 0 <= i < |args| ==> words[i] == Word(args[i])
    ensures Joined(words) == Line(args)
  {
    if |args| > 1 {
      JoinedLine(args[1..], words[1..]);
    }
  }

  method WinArgv(args: seq<string>) returns (line: string)
    ensures ReadLine(line) == args
  {
    var out: seq<string> := [];
    for i := 0 to |args|
      invariant |out| == i && forall j :: 0 <= j < i ==> out[j] == Word(args[j])
    {
      var a := args[i];
      if Plain(a) {
        out := out + [a];
        continue;
      }
      var q := QuoteArgument(a);
      out := out + [q];
    }
    JoinedLine(args, out);
    LineReadsBack(args);
    line := Joined(out);
  }
}
