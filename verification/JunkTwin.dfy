/** The rewrite that plants dead bytes behind jumps and returns, and its reference twin with no-operations in
    their place, on the lines of an assembler file. */
module JunkTwin {
  import opened Bytes
  import opened Share
  import opened Text

  // --- lines ---------------------------------------------------------------

  /** The first place from `i` on that is not white space. */
  function Indent(line: string, i: nat): (p: nat)
    requires i <= |line|
    ensures i <= p <= |line|
    decreases |line| - i
  {
    if i < |line| && IsSpace(line[i]) then Indent(line, i + 1) else i
  }

  /** `^\s*` the word `\b`. */
  predicate Begins(line: string, word: string) {
    var p := Indent(line, 0);
    var end := p + |word|;
    end <= |line| && line[p..end] == word && (end == |line| || !IsWord(line[end]))
  }

  /** An unconditional transfer, as the two patterns match it. */
  predicate Transfer(arm: bool, line: string) {
    if arm then Begins(line, "b") || Begins(line, "br") || Begins(line, "ret")
    else Begins(line, "jmp") || Begins(line, "jmpq") || Begins(line, "ret") || Begins(line, "retq") || Begins(line, "ud2")
  }

  predicate FuncStart(line: string) { Begins(line, ".cfi_startproc") }

  predicate FuncEnd(line: string) { Begins(line, ".cfi_endproc") }

  function NameEnd(line: string, i: nat): (j: nat)
    requires i <= |line|
    ensures i <= j <= |line|
    decreases |line| - i
  {
    if i < |line| && (IsWord(line[i]) || line[i] == '.' || line[i] == '$') then NameEnd(line, i + 1) else i
  }

  /** The label a line is, as `^(\.?\w[\w.$]*):` matches it. */
  function LabelOf(line: string): Option<string> {
    var i := if line != [] && line[0] == '.' then 1 else 0;
    if i < |line| && IsWord(line[i]) then
      var j := NameEnd(line, i + 1);
      if j < |line| && line[j] == ':' then Some(line[..j]) else None
    else None
  }

  predicate SymbolChar(c: char) { IsWord(c) || c == '.' || c == '$' }

  /** What can be a label: a dot or none, a letter, digit or underscore, and then those, dots and dollars. */
  predicate IsName(name: string) {
    var i := if name != [] && name[0] == '.' then 1 else 0;
    i < |name| && IsWord(name[i]) && forall k :: i < k < |name| ==> SymbolChar(name[k])
  }

  /** A line is a label exactly when it begins, without an indent, with such a name and a colon. */
  lemma LabelMeans(line: string, name: string)
    ensures LabelOf(line) == Some(name) <==> IsName(name) && name + ":" <= line
  {
    hide IsWord;
    assert !IsWord('.') && !SymbolChar(':') by { NoWords(); }
    if LabelOf(line) == Some(name) {
      var i := if line[0] == '.' then 1 else 0;
      NameEndIs(line, i + 1);
      assert forall k :: 0 <= k < |name| ==> name[k] == line[k];
      assert line[..|name| + 1] == name + ":";
    }
    if IsName(name) && name + ":" <= line {
      var i := if name[0] == '.' then 1 else 0;
      assert forall k :: 0 <= k < |name| ==> (name + ":")[k] == name[k] == line[k];
      assert (name + ":")[|name|] == ':' == line[|name|];
      NameEndIs(line, i + 1);
      var j := NameEnd(line, i + 1);
      assert j == |name|;
      assert line[..j] == name;
    }
  }

  lemma NoWords()
    ensures !IsWord('.') && !IsWord(':')
  {
  }

  /** The patterns take a conditional AArch64 branch for an unconditional one: `\b` holds between `b` and
      its dot. */
  lemma ConditionalBranchMatches()
    ensures Transfer(true, "\tb.eq\t.L2")
  {
    var line := "\tb.eq\t.L2";
    assert Indent(line, 1) == 1;
    assert line[1..2] == "b" && !IsWord(line[2]);
  }

  /** The symbol a line begins with: the letters, digits, dots and dollars behind the indent. */
  function Symbol(line: string): string {
    var p := Indent(line, 0);
    line[p..NameEnd(line, p)]
  }

  /** What stands behind the first |word| characters of a line's text. */
  function Follows(line: string, word: string): Option<char> {
    var end := Indent(line, 0) + |word|;
    if end < |line| then Some(line[end]) else None
  }

  /** The line is an instruction with the mnemonic `word`: its first symbol is `word` and not a label. */
  predicate Instruction(line: string, word: string) {
    Symbol(line) == word && Follows(line, word) != Some(':')
  }

  /** A pattern for `word` matches the lines whose first symbol is `word`, or `word` and then a dot or a dollar
      and anything, and no others; such a line is a `word` instruction exactly when neither a dot, a dollar nor
      a colon follows. */
  lemma BeginsMeans(line: string, word: string)
    requires word != [] && forall i :: 0 <= i < |word| ==> IsWord(word[i])
    ensures Begins(line, word) <==>
            Symbol(line) == word || word + "." <= Symbol(line) || word + "$" <= Symbol(line)
    ensures Begins(line, word) ==>
              (Instruction(line, word) <==> Follows(line, word) !in {Some('.'), Some('$'), Some(':')})
  {
    hide Indent, IsWord, NameEnd;
    if Begins(line, word) {
      BeginsSymbol(line, word);
    } else {
      SymbolBegins(line, word);
    }
  }

  lemma BeginsSymbol(line: string, word: string)
    requires word != [] && forall i :: 0 <= i < |word| ==> IsWord(word[i])
    requires Begins(line, word)
    ensures match Follows(line, word)
            case Some('.') => word + "." <= Symbol(line)
            case Some('$') => word + "$" <= Symbol(line)
            case _ => Symbol(line) == word
    ensures Symbol(line) == word ==> Follows(line, word) !in {Some('.'), Some('$')}
  {
    hide Indent, IsWord, NameEnd;
    var p := Indent(line, 0);
    var (j, end) := (NameEnd(line, p), p + |word|);
    assert forall k :: 0 <= k < |word| ==> line[p + k] == line[p..end][k] == word[k];
    NameEndIs(line, p);
    assert end <= j;
    if end < |line| && line[end] in ".$" {
      assert end < j;
      assert line[p..j][..|word| + 1] == word + [line[end]];
    }
  }

  lemma SymbolBegins(line: string, word: string)
    requires word != [] && !Begins(line, word)
    ensures Symbol(line) != word && !(word + "." <= Symbol(line)) && !(word + "$" <= Symbol(line))
  {
    hide Indent, NameEnd;
    var p := Indent(line, 0);
    NameEndIs(line, p);
    var (j, end) := (NameEnd(line, p), p + |word|);
    var m := line[p..j];
    if word <= m {
      Within(line, p, j, |word|);
      assert end < j ==> m[|word|] == line[end];
    }
  }

  lemma Within(line: string, p: nat, j: nat, n: nat)
    requires p <= j <= |line| && n <= j - p
    ensures line[p..j][..n] == line[p..p + n]
  {
  }

  /** A symbol is the longest run of its characters. */
  lemma {:induction false} NameEndIs(line: string, i: nat)
    requires i <= |line|
    ensures var j := NameEnd(line, i);
            && (forall k :: i <= k < j ==> IsWord(line[k]) || line[k] in ".$")
            && (j < |line| ==> !IsWord(line[j]) && line[j] !in ".$")
    decreases |line| - i
  {
    hide IsWord;
    if i < |line| && (IsWord(line[i]) || line[i] in ".$") {
      NameEndIs(line, i + 1);
    }
  }

  /** The run of letters, digits and underscores a line's text begins with. */
  function Stem(line: string): string {
    var p := Indent(line, 0);
    line[p..StemEnd(line, p)]
  }

  function StemEnd(line: string, i: nat): (j: nat)
    requires i <= |line|
    ensures i <= j <= |line|
    ensures forall k :: i <= k < j ==> IsWord(line[k])
    ensures j < |line| ==> !IsWord(line[j])
    decreases |line| - i
  {
    if i < |line| && IsWord(line[i]) then StemEnd(line, i + 1) else i
  }

  /** A pattern for `word` looks at the stem only. */
  lemma BeginsStem(line: string, word: string)
    requires word != [] && forall i :: 0 <= i < |word| ==> IsWord(word[i])
    ensures Begins(line, word) <==> Stem(line) == word
  {
    hide Indent, IsWord;
    var p := Indent(line, 0);
    var (j, end) := (StemEnd(line, p), p + |word|);
    if Begins(line, word) {
      assert forall k :: 0 <= k < |word| ==> line[p + k] == line[p..end][k] == word[k];
      assert j == end;
    }
  }

  /** The unconditional transfers of either architecture. */
  function Transfers(arm: bool): set<string> {
    if arm then {"b", "br", "ret"} else {"jmp", "jmpq", "ret", "retq", "ud2"}
  }

  /** The lines taken for unconditional transfers are those whose stem is one. */
  lemma TransferMeans(arm: bool, line: string)
    ensures Transfer(arm, line) <==> Stem(line) in Transfers(arm)
  {
    hide Begins, Stem;
    forall w | w in Transfers(true) + Transfers(false) ensures Begins(line, w) <==> Stem(line) == w {
      BeginsStem(line, w);
    }
  }

  /** So a label that is spelt like a transfer gets a block behind it. */
  lemma LabelMatches()
    ensures Transfer(true, "ret:") && LabelOf("ret:") == Some("ret") && !Instruction("ret:", "ret")
  {
    var line := "ret:";
    assert Indent(line, 0) == 0 && line[0..3] == "ret" == line[..3];
    assert NameEnd(line, 1) == NameEnd(line, 2) == NameEnd(line, 3) == 3;
  }

  // --- the functions of the file -------------------------------------------

  datatype Region = Region(start: nat, end: nat, name: Option<string>)

  datatype Scan = Scan(name: Option<string>, start: Option<nat>, out: seq<Region>)

  function ScanLine(s: Scan, line: string, i: nat): Scan {
    var name := if LabelOf(line).Some? then LabelOf(line) else s.name;
    if FuncStart(line) then Scan(name, Some(i), s.out)
    else if FuncEnd(line) && s.start.Some? then Scan(name, None, s.out + [Region(s.start.value, i, name)])
    else Scan(name, s.start, s.out)
  }

  function ScanTo(lines: seq<string>, n: nat): Scan
    requires n <= |lines|
  {
    if n == 0 then Scan(None, None, []) else ScanLine(ScanTo(lines, n - 1), lines[n - 1], n - 1)
  }

  method FuncRegions(lines: seq<string>) returns (out: seq<Region>)
    ensures out == ScanTo(lines, |lines|).out
  {
    out := [];
    var name: Option<string>, start: Option<nat> := None, None;
    for i := 0 to |lines|
      invariant Scan(name, start, out) == ScanTo(lines, i)
    {
      var m := LabelOf(lines[i]);
      if m.Some? { name := m; }
      if FuncStart(lines[i]) {
        start := Some(i);
      } else if FuncEnd(lines[i]) && start.Some? {
        out := out + [Region(start.value, i, name)];
        start := None;
      }
    }
  }

  predicate Marker(line: string) { FuncStart(line) || FuncEnd(line) }

  /** From a start to the next marker, which is an end. */
  predicate IsRegion(lines: seq<string>, s: nat, e: nat) {
    && s < e < |lines| && FuncStart(lines[s]) && FuncEnd(lines[e]) && !FuncStart(lines[e])
    && forall k :: s < k < e ==> !Marker(lines[k])
  }

  /** An open start has no marker behind it, and the other way round. */
  predicate IsOpen(lines: seq<string>, n: nat, s: nat) {
    s < n <= |lines| && FuncStart(lines[s]) && forall k :: s < k < n ==> !Marker(lines[k])
  }

  /** A scan of the first `n` lines: the open start, and the regions as exactly the stretches from a start to
      the next marker that is an end, in order and apart from each other. */
  ghost predicate Exactly(lines: seq<string>, n: nat, sc: Scan) {
    && n <= |lines|
    && (forall s: nat :: sc.start == Some(s) <==> IsOpen(lines, n, s))
    && (forall i :: 0 <= i < |sc.out| ==> IsRegion(lines, sc.out[i].start, sc.out[i].end) && sc.out[i].end < n)
    && (forall s: nat, e: nat :: IsRegion(lines, s, e) && e < n ==> exists i :: 0 <= i < |sc.out| && sc.out[i].start == s && sc.out[i].end == e)
    && (forall i, j :: 0 <= i < j < |sc.out| ==> sc.out[i].end < sc.out[j].start)
    && (sc.start.Some? ==> forall i :: 0 <= i < |sc.out| ==> sc.out[i].end < sc.start.value)
  }

  lemma {:induction false} RegionsExact(lines: seq<string>, n: nat)
    requires n <= |lines|
    ensures Exactly(lines, n, ScanTo(lines, n))
  {
    hide Exactly, ScanTo;
    if n == 0 {
      NothingScanned(lines);
    } else {
      RegionsExact(lines, n - 1);
      RegionsStep(lines, n - 1, ScanTo(lines, n - 1));
      ScanStep(lines, n);
    }
  }

  lemma NothingScanned(lines: seq<string>)
    ensures Exactly(lines, 0, ScanTo(lines, 0))
  {
  }

  lemma ScanStep(lines: seq<string>, n: nat)
    requires 0 < n <= |lines|
    ensures ScanTo(lines, n) == ScanLine(ScanTo(lines, n - 1), lines[n - 1], n - 1)
  {
    hide ScanLine;
  }

  /** One more line scanned. */
  lemma RegionsStep(lines: seq<string>, n: nat, sc: Scan)
    requires n < |lines| && Exactly(lines, n, sc)
    ensures Exactly(lines, n + 1, ScanLine(sc, lines[n], n))
  {
    hide FuncStart, FuncEnd, LabelOf;
    if FuncEnd(lines[n]) && !FuncStart(lines[n]) {
      RegionCloses(lines, n, sc);
    } else {
      forall s: nat, e: nat | IsRegion(lines, s, e) && e < n + 1 ensures e < n {
      }
    }
  }

  lemma RegionCloses(lines: seq<string>, n: nat, sc: Scan)
    requires n < |lines| && Exactly(lines, n, sc) && FuncEnd(lines[n]) && !FuncStart(lines[n])
    ensures Exactly(lines, n + 1, ScanLine(sc, lines[n], n))
  {
    hide FuncStart, FuncEnd, LabelOf;
    var sc' := ScanLine(sc, lines[n], n);
    assert forall i :: 0 <= i < |sc.out| ==> sc'.out[i] == sc.out[i];
    if sc.start.Some? {
      assert IsOpen(lines, n, sc.start.value) && IsRegion(lines, sc.start.value, n);
      assert sc'.out[|sc.out|].start == sc.start.value && sc'.out[|sc.out|].end == n;
    }
    forall s: nat, e: nat | IsRegion(lines, s, e) && e < n + 1
      ensures exists i :: 0 <= i < |sc'.out| && sc'.out[i].start == s && sc'.out[i].end == e
    {
      if e == n {
        assert IsOpen(lines, n, s);
      }
    }
  }

  /** The last label among the first `n` lines. */
  function LastLabel(lines: seq<string>, n: nat): Option<string>
    requires n <= |lines|
  {
    if n == 0 then None
    else if LabelOf(lines[n - 1]).Some? then LabelOf(lines[n - 1])
    else LastLabel(lines, n - 1)
  }

  /** A region carries the last label before its end. */
  lemma {:induction false} RegionLabels(lines: seq<string>, n: nat)
    requires n <= |lines|
    ensures ScanTo(lines, n).name == LastLabel(lines, n)
    ensures forall i :: 0 <= i < |ScanTo(lines, n).out| ==>
              var r := ScanTo(lines, n).out[i]; r.end < n && r.name == LastLabel(lines, r.end + 1)
  {
    hide LabelOf, FuncStart, FuncEnd;
    if n > 0 {
      RegionLabels(lines, n - 1);
    }
  }

  /** Line `k` is a label, and none behind it up to line `e` is. */
  predicate LastInside(lines: seq<string>, k: nat, e: nat) {
    k <= e < |lines| && LabelOf(lines[k]).Some? && forall j :: k < j <= e ==> LabelOf(lines[j]).None?
  }

  /** The label stays what it was over the lines from `s` to `e` exactly when the last label among them, where
      there is one, is that label again. */
  lemma {:induction false} LabelStays(lines: seq<string>, s: nat, e: nat)
    requires s <= e < |lines|
    ensures LastLabel(lines, e + 1) == LastLabel(lines, s) <==>
            forall k :: s <= k <= e && LastInside(lines, k, e) ==> LabelOf(lines[k]) == LastLabel(lines, s)
    decreases e
  {
    hide LabelOf;
    if LabelOf(lines[e]).Some? {
      assert LastInside(lines, e, e);
    } else if s < e {
      LabelStays(lines, s, e - 1);
      assert forall k :: s <= k < e ==> (LastInside(lines, k, e) <==> LastInside(lines, k, e - 1));
    }
  }

  /** A region goes by the nearest label in front of it if and only if no line of it is a label, or the last
      one that is carries that same label. */
  lemma LabelOfFunction(lines: seq<string>, i: nat)
    requires i < |ScanTo(lines, |lines|).out|
    ensures var r := ScanTo(lines, |lines|).out[i];
            && r.start < r.end < |lines|
            && (r.name == LastLabel(lines, r.start) <==>
                forall k :: r.start <= k <= r.end && LastInside(lines, k, r.end) ==> LabelOf(lines[k]) == LastLabel(lines, r.start))
  {
    hide LabelOf, ScanTo, LastLabel, LastInside, FuncStart, FuncEnd;
    RegionsExact(lines, |lines|);
    RegionLabels(lines, |lines|);
    var r := ScanTo(lines, |lines|).out[i];
    LabelStays(lines, r.start, r.end);
  }

  /** So a function with a label inside it goes by that label, not by its own name. */
  lemma LocalLabelTaken()
    ensures ScanTo(["f:", "\t.cfi_startproc", ".L2:", "\t.cfi_endproc"], 4).out == [Region(1, 3, Some(".L2"))]
  {
    var lines := ["f:", "\t.cfi_startproc", ".L2:", "\t.cfi_endproc"];
    var (a, b, c, d) := (lines[0], lines[1], lines[2], lines[3]);
    assert NameEnd(a, 1) == 1 && LabelOf(a) == Some("f") by { assert a[..1] == "f"; }
    assert Indent(a, 0) == 0 && a[0] != '.' && !Marker(a) by { NotMarker(a, 0); }
    assert Indent(b, 1) == 1 && LabelOf(b) == None && FuncStart(b) by { assert b[1..] == ".cfi_startproc"; }
    assert NameEnd(c, 3) == 3 && LabelOf(c) == Some(".L2") by { assert c[..3] == ".L2"; }
    assert Indent(c, 0) == 0 && c[1] != 'c' && !Marker(c) by { NotMarker(c, 1); }
    assert Indent(d, 1) == 1 && LabelOf(d) == None && FuncEnd(d) by { assert d[1..] == ".cfi_endproc"; }
    assert !FuncStart(d) by { assert |d| == 13; }
    hide LabelOf, FuncStart, FuncEnd;
    assert ScanTo(lines, 1) == Scan(Some("f"), None, []);
    assert ScanTo(lines, 2) == Scan(Some("f"), Some(1), []);
    assert ScanTo(lines, 3) == Scan(Some(".L2"), Some(1), []);
  }

  lemma NotMarker(line: string, k: nat)
    requires Indent(line, 0) == 0 && k < 2 && k < |line| && line[k] != ".c"[k]
    ensures !Marker(line)
  {
    assert ".cfi_startproc"[k] == ".c"[k] && ".cfi_endproc"[k] == ".c"[k];
    assert |line| >= 14 ==> line[0..14][k] == line[k];
    assert |line| >= 12 ==> line[0..12][k] == line[k];
  }

  // --- weaving -------------------------------------------------------------

  function LowLabel(tag: string, n: nat): string { "__obf_junk_" + tag + "_" + Decimal(n) + "_a" }

  function HighLabel(tag: string, n: nat): string { "__obf_junk_" + tag + "_" + Decimal(n) + "_b" }

  function Block(tag: string, n: nat, bytes: string): (r: seq<string>)
    ensures |r| == 3
  {
    [LowLabel(tag, n) + ":", "\t" + bytes, HighLabel(tag, n) + ":"]
  }

  const JUNK: string := ".byte 0xe8"
  const PAD: string := ".byte 0x90"
  const ARM_WORD: string := ".byte 0x1f, 0x20, 0x03, 0xd5"

  function JunkBytes(arm: bool): string { if arm then ARM_WORD else JUNK }

  function PadBytes(arm: bool): string { if arm then ARM_WORD else PAD }

  /** The lines with a block behind each planned one, the blocks numbered from `n` + 1. */
  function Woven(lines: seq<string>, plan: seq<bool>, tag: string, n: nat, bytes: string): seq<string>
    requires |plan| == |lines|
  {
    if lines == [] then []
    else if plan[0] then [lines[0]] + Block(tag, n + 1, bytes) + Woven(lines[1..], plan[1..], tag, n + 1, bytes)
    else [lines[0]] + Woven(lines[1..], plan[1..], tag, n, bytes)
  }

  function Planned(plan: seq<bool>): nat {
    if plan == [] then 0 else (if plan[0] then 1 else 0) + Planned(plan[1..])
  }

  /** Where the assembler puts line `k`, under a size for every line. */
  function Address(lines: seq<string>, k: nat, size: string -> nat): nat
    requires k <= |lines|
  {
    if k == 0 then 0 else size(lines[0]) + Address(lines[1..], k - 1, size)
  }

  /** The obfuscated file and its twin have equal lengths and differ only on a line between the two labels of
      one planted pair. */
  lemma {:induction false} TwinsDiffer(lines: seq<string>, plan: seq<bool>, tag: string, n: nat, a: string, b: string, k: nat)
    requires |plan| == |lines|
    ensures var (x, y) := (Woven(lines, plan, tag, n, a), Woven(lines, plan, tag, n, b));
            && |x| == |y| == |lines| + 3 * Planned(plan)
            && (k < |x| && x[k] != y[k] ==>
                  && 0 < k < |x| - 1 && x[k] == "\t" + a && y[k] == "\t" + b
                  && exists m :: n < m <= n + Planned(plan) && x[k - 1] == y[k - 1] == LowLabel(tag, m) + ":"
                                 && x[k + 1] == y[k + 1] == HighLabel(tag, m) + ":")
  {
    hide LowLabel, HighLabel;
    if lines != [] {
      var n' := if plan[0] then n + 1 else n;
      var skip := if plan[0] then 4 else 1;
      TwinsDiffer(lines[1..], plan[1..], tag, n', a, b, if k < skip then 0 else k - skip);
      hide Woven, Planned;
      WovenParts(lines, plan, tag, n, a);
      WovenParts(lines, plan, tag, n, b);
    }
  }

  /** Line `k` is between the two labels of the planted pair `m`, and the two files have `a` and `b` there. */
  ghost predicate PairAt(x: seq<string>, y: seq<string>, tag: string, m: nat, a: string, b: string, k: nat) {
    && 0 < k && k + 1 < |x| && |x| == |y| && x[k] == "\t" + a && y[k] == "\t" + b
    && x[k - 1] == y[k - 1] == LowLabel(tag, m) + ":" && x[k + 1] == y[k + 1] == HighLabel(tag, m) + ":"
  }

  ghost predicate HasPair(x: seq<string>, y: seq<string>, tag: string, m: nat, a: string, b: string) {
    exists k :: PairAt(x, y, tag, m, a, b, k)
  }

  /** The pairs 1 to `n` are there. */
  ghost predicate HasPairs(x: seq<string>, y: seq<string>, tag: string, n: nat, a: string, b: string) {
    forall m :: 0 < m <= n ==> HasPair(x, y, tag, m, a, b)
  }

  /** Every planted pair is there, in both files. */
  lemma {:induction false} PairsPlanted(lines: seq<string>, plan: seq<bool>, tag: string, n: nat, a: string, b: string, m: nat) returns (k: nat)
    requires |plan| == |lines| && n < m <= n + Planned(plan)
    ensures PairAt(Woven(lines, plan, tag, n, a), Woven(lines, plan, tag, n, b), tag, m, a, b, k)
  {
    hide LowLabel, HighLabel, Woven;
    WovenParts(lines, plan, tag, n, a);
    WovenParts(lines, plan, tag, n, b);
    hide Planned;
    if plan[0] && m == n + 1 {
      k := 2;
      TwinsDiffer(lines, plan, tag, n, a, b, 0);
    } else {
      k := PairsPlanted(lines[1..], plan[1..], tag, if plan[0] then n + 1 else n, a, b, m);
      k := k + if plan[0] then 4 else 1;
    }
  }

  /** The first line, its block where it has one, and the rest. */
  lemma WovenParts(lines: seq<string>, plan: seq<bool>, tag: string, n: nat, bytes: string)
    requires |plan| == |lines| && lines != []
    ensures var (x, skip) := (Woven(lines, plan, tag, n, bytes), if plan[0] then 4 else 1);
            var rest := Woven(lines[1..], plan[1..], tag, if plan[0] then n + 1 else n, bytes);
            && |x| == skip + |rest| && x[0] == lines[0]
            && (forall j :: skip <= j < |x| ==> x[j] == rest[j - skip])
            && (plan[0] ==> x[1] == LowLabel(tag, n + 1) + ":" && x[2] == "\t" + bytes && x[3] == HighLabel(tag, n + 1) + ":")
    ensures Planned(plan) == (if plan[0] then 1 else 0) + Planned(plan[1..])
  {
    hide LowLabel, HighLabel;
  }

  lemma {:induction false} AddressSame(x: seq<string>, y: seq<string>, k: nat, size: string -> nat)
    requires |x| == |y| && k <= |x| && forall j :: 0 <= j < k ==> size(x[j]) == size(y[j])
    ensures Address(x, k, size) == Address(y, k, size)
    decreases k
  {
    if k > 0 {
      AddressSame(x[1..], y[1..], k - 1, size);
    }
  }

  /** Under any size of lines that gives the two fillings one size, every line is at the same address in both. */
  lemma TwinsAlign(lines: seq<string>, plan: seq<bool>, tag: string, n: nat, a: string, b: string, k: nat, size: string -> nat)
    requires |plan| == |lines| && size("\t" + a) == size("\t" + b)
    ensures var (x, y) := (Woven(lines, plan, tag, n, a), Woven(lines, plan, tag, n, b));
            |x| == |y| && (k <= |x| ==> Address(x, k, size) == Address(y, k, size))
  {
    hide Woven, LowLabel, HighLabel;
    var (x, y) := (Woven(lines, plan, tag, n, a), Woven(lines, plan, tag, n, b));
    TwinsDiffer(lines, plan, tag, n, a, b, 0);
    if k <= |x| {
      forall j | 0 <= j < k ensures size(x[j]) == size(y[j]) {
        TwinsDiffer(lines, plan, tag, n, a, b, j);
      }
      AddressSame(x, y, k, size);
    }
  }

  // --- erasing -------------------------------------------------------------

  /** No label is planted twice. */
  lemma LowDistinct(tag: string, n: nat, m: nat)
    requires LowLabel(tag, n) == LowLabel(tag, m)
    ensures n == m
  {
    var front := "__obf_junk_" + tag + "_";
    var (x, y) := (LowLabel(tag, n), LowLabel(tag, m));
    assert x == front + Decimal(n) + "_a" && y == front + Decimal(m) + "_a";
    assert x[|front|..|x| - 2] == Decimal(n) && y[|front|..|y| - 2] == Decimal(m);
    DecimalDistinct(n, m);
  }

  /** Nor is a label both the first of a pair and the second of one. */
  lemma LowIsNotHigh(tag: string, n: nat, m: nat)
    ensures LowLabel(tag, n) != HighLabel(tag, m)
  {
    var (x, y) := (LowLabel(tag, n), HighLabel(tag, m));
    assert x[|x| - 1] == 'a' && y[|y| - 1] == 'b';
  }

  /** The planted lines taken out by where they were planned: three behind each planned line. */
  function Unwoven(lines: seq<string>, plan: seq<bool>): seq<string>
    decreases plan
  {
    if plan == [] || lines == [] then []
    else
      var skip := if plan[0] then 4 else 1;
      [lines[0]] + Unwoven(if skip <= |lines| then lines[skip..] else [], plan[1..])
  }

  /** Taking the planted lines out gives the input back, whatever it holds, from the obfuscated file and from
      the twin alike. */
  lemma {:induction false} ErasedIsInput(lines: seq<string>, plan: seq<bool>, tag: string, n: nat, bytes: string)
    requires |plan| == |lines|
    ensures Unwoven(Woven(lines, plan, tag, n, bytes), plan) == lines
    decreases lines
  {
    hide Woven;
    if lines != [] {
      var n' := if plan[0] then n + 1 else n;
      ErasedIsInput(lines[1..], plan[1..], tag, n', bytes);
      WovenParts(lines, plan, tag, n, bytes);
      var x := Woven(lines, plan, tag, n, bytes);
      assert x[if plan[0] then 4 else 1..] == Woven(lines[1..], plan[1..], tag, n', bytes);
      assert lines == [lines[0]] + lines[1..];
    }
  }

  /** No line of the input is the first label of a planted pair. */
  ghost predicate Fresh(lines: seq<string>, tag: string, n: nat) {
    forall i, m: nat :: 0 <= i < |lines| && m > n ==> lines[i] != LowLabel(tag, m) + ":"
  }

  /** The planted lines taken out by their labels: at the next label expected, three lines go. */
  function Erase(lines: seq<string>, tag: string, n: nat): seq<string> {
    if lines == [] then []
    else if lines[0] == LowLabel(tag, n + 1) + ":" then (if |lines| < 3 then [] else Erase(lines[3..], tag, n + 1))
    else [lines[0]] + Erase(lines[1..], tag, n)
  }

  /** The labels alone are enough to undo it, in a text that holds none of them. */
  lemma {:induction false} ErasedByLabels(lines: seq<string>, plan: seq<bool>, tag: string, n: nat, bytes: string)
    requires |plan| == |lines| && Fresh(lines, tag, n)
    ensures Erase(Woven(lines, plan, tag, n, bytes), tag, n) == lines
    decreases lines
  {
    hide LowLabel, HighLabel, Woven, Erase, Fresh;
    if lines == [] {
      EraseNone(plan, tag, n, bytes);
    } else {
      var n' := if plan[0] then n + 1 else n;
      FreshSplit(lines, tag, n);
      ErasedByLabels(lines[1..], plan[1..], tag, n', bytes);
      var tail := Woven(lines[1..], plan[1..], tag, n', bytes);
      var x := Woven(lines, plan, tag, n, bytes);
      WovenParts(lines, plan, tag, n, bytes);
      EraseLine(x, tag, n);
      if plan[0] {
        assert x[1..][3..] == tail;
        EraseBlock(x[1..], tag, n);
      } else {
        assert x[1..] == tail;
      }
      assert lines == [lines[0]] + lines[1..];
    }
  }

  lemma EraseNone(plan: seq<bool>, tag: string, n: nat, bytes: string)
    requires plan == []
    ensures Erase(Woven([], plan, tag, n, bytes), tag, n) == []
  {
  }

  lemma FreshSplit(lines: seq<string>, tag: string, n: nat)
    requires lines != [] && Fresh(lines, tag, n)
    ensures lines[0] != LowLabel(tag, n + 1) + ":"
    ensures Fresh(lines[1..], tag, n) && Fresh(lines[1..], tag, n + 1)
  {
    hide LowLabel;
  }

  lemma EraseLine(x: seq<string>, tag: string, n: nat)
    requires x != [] && x[0] != LowLabel(tag, n + 1) + ":"
    ensures Erase(x, tag, n) == [x[0]] + Erase(x[1..], tag, n)
  {
    hide LowLabel;
  }

  lemma EraseBlock(x: seq<string>, tag: string, n: nat)
    requires |x| >= 3 && x[0] == LowLabel(tag, n + 1) + ":"
    ensures Erase(x, tag, n) == Erase(x[3..], tag, n + 1)
  {
    hide LowLabel;
  }

  // --- the transformation --------------------------------------------------

  /** Line `i` lies in a chosen function that has a label. */
  predicate InChosen(regions: seq<Region>, p: nat, q: nat, i: nat)
    requires q > 0
  {
    exists k :: 0 <= k < |regions| && Chosen(k, p, q) && regions[k].start <= i <= regions[k].end && regions[k].name.Some?
  }

  predicate Apart(regions: seq<Region>) {
    forall i, j :: 0 <= i < j < |regions| ==> regions[i].end < regions[j].start
  }

  /** Which lines get a block. */
  function Plan(lines: seq<string>, arm: bool, p: nat, q: nat): (plan: seq<bool>)
    requires q > 0
    ensures |plan| == |lines|
    ensures forall i :: 0 <= i < |lines| ==>
              (plan[i] <==> Transfer(arm, lines[i]) && InChosen(ScanTo(lines, |lines|).out, p, q, i))
  {
    seq(|lines|, i requires 0 <= i < |lines| => Transfer(arm, lines[i]) && InChosen(ScanTo(lines, |lines|).out, p, q, i))
  }

  /** Line `i` is strictly inside the stretch from `s` to `e`, from a start directive to the next marker, an end;
      there is a label in front of that end; and the share of the stretches, counted in order, takes it. */
  ghost predicate InStretch(lines: seq<string>, p: nat, q: nat, s: nat, e: nat, i: nat)
    requires q > 0
  {
    IsRegion(lines, s, e) && s < i < e && LastLabel(lines, e + 1).Some? && Chosen(|ScanTo(lines, s).out|, p, q)
  }

  /** Which lines get a block: the transfers inside a stretch that is taken. */
  lemma PlanMeans(lines: seq<string>, arm: bool, p: nat, q: nat, i: nat)
    requires q > 0 && i < |lines|
    ensures Plan(lines, arm, p, q)[i] <==>
            Stem(lines[i]) in Transfers(arm) && exists s, e :: InStretch(lines, p, q, s, e, i)
  {
    hide Transfer, Transfers, Stem, ScanTo, InStretch, InChosen;
    TransferMeans(arm, lines[i]);
    if Transfer(arm, lines[i]) {
      TransferIsNoMarker(arm, lines[i]);
      InChosenMeans(lines, p, q, i);
    }
  }

  lemma InChosenMeans(lines: seq<string>, p: nat, q: nat, i: nat)
    requires q > 0 && i < |lines| && !Marker(lines[i])
    ensures InChosen(ScanTo(lines, |lines|).out, p, q, i) <==> exists s, e :: InStretch(lines, p, q, s, e, i)
  {
    hide ScanTo, InStretch, Chosen;
    var out := ScanTo(lines, |lines|).out;
    if InChosen(out, p, q, i) {
      var k :| 0 <= k < |out| && Chosen(k, p, q) && out[k].start <= i <= out[k].end && out[k].name.Some?;
      RegionIn(lines, k);
      StretchOf(lines, p, q, k, i);
    }
    if s, e :| InStretch(lines, p, q, s, e, i) {
      var k := StretchAt(lines, p, q, s, e, i);
    }
  }

  /** A region of the scan: its stretch, its label and its number. */
  lemma RegionIn(lines: seq<string>, k: nat)
    requires k < |ScanTo(lines, |lines|).out|
    ensures var r := ScanTo(lines, |lines|).out[k];
            && IsRegion(lines, r.start, r.end) && r.name == LastLabel(lines, r.end + 1)
            && |ScanTo(lines, r.start).out| == k
  {
    hide ScanTo, LastLabel, FuncStart, FuncEnd;
    RegionsExact(lines, |lines|);
    RegionLabels(lines, |lines|);
    RegionsBefore(lines, k);
  }

  lemma StretchOf(lines: seq<string>, p: nat, q: nat, k: nat, i: nat)
    requires q > 0 && i < |lines| && !Marker(lines[i]) && k < |ScanTo(lines, |lines|).out| && Chosen(k, p, q)
    requires var r := ScanTo(lines, |lines|).out[k];
             r.start <= i <= r.end && r.name.Some? && IsRegion(lines, r.start, r.end)
    ensures var r := ScanTo(lines, |lines|).out[k]; InStretch(lines, p, q, r.start, r.end, i)
  {
    hide ScanTo, LastLabel, FuncStart, FuncEnd, Chosen;
    RegionIn(lines, k);
  }

  lemma StretchAt(lines: seq<string>, p: nat, q: nat, s: nat, e: nat, i: nat) returns (k: nat)
    requires q > 0 && i < |lines| && InStretch(lines, p, q, s, e, i)
    ensures var out := ScanTo(lines, |lines|).out;
            k < |out| && Chosen(k, p, q) && out[k].start <= i <= out[k].end && out[k].name.Some?
  {
    hide ScanTo, LastLabel, FuncStart, FuncEnd, Chosen;
    RegionsExact(lines, |lines|);
    var out := ScanTo(lines, |lines|).out;
    k :| k < |out| && out[k].start == s && out[k].end == e;
    RegionIn(lines, k);
  }

  /** The regions of the first `n` lines come first. */
  lemma {:induction false} ScanGrows(lines: seq<string>, n: nat, m: nat)
    requires n <= m <= |lines|
    ensures ScanTo(lines, n).out <= ScanTo(lines, m).out
    decreases m
  {
    hide LabelOf, FuncStart, FuncEnd;
    if n < m {
      ScanGrows(lines, n, m - 1);
    }
  }

  /** As many regions are closed before the start of a region as come before it. */
  lemma RegionsBefore(lines: seq<string>, k: nat)
    requires k < |ScanTo(lines, |lines|).out|
    ensures ScanTo(lines, |lines|).out[k].start < |lines|
    ensures |ScanTo(lines, ScanTo(lines, |lines|).out[k].start).out| == k
  {
    hide ScanTo, FuncStart, FuncEnd;
    var out := ScanTo(lines, |lines|).out;
    RegionsExact(lines, |lines|);
    var s := out[k].start;
    assert IsRegion(lines, s, out[k].end);
    RegionsExact(lines, s);
    ScanGrows(lines, s, |lines|);
    var before := ScanTo(lines, s).out;
    assert forall j :: 0 <= j < |before| ==> before[j] == out[j];
    if |before| > 0 {
      assert before[|before| - 1].end < s;
    }
    if k > 0 {
      assert IsRegion(lines, out[k - 1].start, out[k - 1].end) && out[k - 1].end < s;
      var j :| 0 <= j < |before| && before[j].start == out[k - 1].start && before[j].end == out[k - 1].end;
    }
  }

  lemma TransferIsNoMarker(arm: bool, line: string)
    requires Transfer(arm, line)
    ensures !Marker(line)
  {
    hide Indent;
    var p := Indent(line, 0);
    assert Marker(line) ==> p < |line| && line[p] == '.' by {
      assert forall end :: p < end <= |line| ==> line[p..end][0] == line[p];
    }
    assert p < |line| && line[p] != '.' by {
      assert forall end :: p < end <= |line| ==> line[p..end][0] == line[p];
    }
  }

  method SetRange(of: map<nat, Option<string>>, r: Region) returns (to: map<nat, Option<string>>)
    requires r.start <= r.end
    ensures forall i: nat :: i in to <==> i in of || r.start <= i <= r.end
    ensures forall i: nat :: i in to ==> to[i] == if r.start <= i <= r.end then r.name else of[i]
  {
    to := of;
    for i := r.start to r.end + 1
      invariant forall j: nat :: j in to <==> j in of || r.start <= j < i
      invariant forall j: nat :: j in to ==> to[j] == if r.start <= j < i then r.name else of[j]
    {
      to := to[i := r.name];
    }
  }

  /** The `region_of` table: the label of the chosen region each line is in. */
  method RegionOf(regions: seq<Region>, p: nat, q: nat) returns (of: map<nat, Option<string>>)
    requires q > 0 && Apart(regions) && forall k :: 0 <= k < |regions| ==> regions[k].start <= regions[k].end
    ensures forall i: nat :: (i in of && of[i].Some?) <==> InChosen(regions, p, q, i)
  {
    hide Chosen;
    of := map[];
    for n := 0 to |regions|
      invariant forall i: nat :: i in of ==> exists k :: 0 <= k < n && regions[k].start <= i <= regions[k].end
      invariant forall i: nat :: (i in of && of[i].Some?) <==> InChosen(regions[..n], p, q, i)
    {
      var r := regions[n];
      assert forall k :: 0 <= k < n ==> regions[..n + 1][k] == regions[..n][k];
      assert regions[..n + 1][n] == r;
      if Chosen(n, p, q) {
        of := SetRange(of, r);
      }
    }
    assert regions[..|regions|] == regions;
  }

  /** `junk_after_transfers`, on the lines: the obfuscated file, its twin, and the label pairs planted. */
  method JunkAfterTransfers(lines: seq<string>, arm: bool, p: nat, q: nat, tag: string)
    returns (obf: seq<string>, twin: seq<string>, pairs: seq<(string, string)>)
    requires q > 0
    ensures var plan := Plan(lines, arm, p, q);
            && obf == Woven(lines, plan, tag, 0, JunkBytes(arm)) && twin == Woven(lines, plan, tag, 0, PadBytes(arm))
            && |pairs| == Planned(plan)
            && forall m :: 0 <= m < |pairs| ==> pairs[m] == (LowLabel(tag, m + 1), HighLabel(tag, m + 1))
  {
    hide Chosen, Transfer, LowLabel, HighLabel, JunkBytes, PadBytes, Woven, Planned, Plan, InChosen, ScanTo, Block, Apart, Then;
    ghost var plan := Plan(lines, arm, p, q);
    var regions := FuncRegions(lines);
    RegionsApart(lines);
    WovenStart(lines, plan, tag, JunkBytes(arm));
    WovenStart(lines, plan, tag, PadBytes(arm));
    var of := RegionOf(regions, p, q);
    obf, twin, pairs := [], [], [];
    var n := 0;
    for i := 0 to |lines|
      invariant Woven(lines, plan, tag, 0, JunkBytes(arm)) == Then(obf, Woven(lines[i..], plan[i..], tag, n, JunkBytes(arm)))
      invariant Woven(lines, plan, tag, 0, PadBytes(arm)) == Then(twin, Woven(lines[i..], plan[i..], tag, n, PadBytes(arm)))
      invariant n == |pairs| && n + Planned(plan[i..]) == Planned(plan)
      invariant forall m :: 0 <= m < |pairs| ==> pairs[m] == (LowLabel(tag, m + 1), HighLabel(tag, m + 1))
    {
      WovenStep(lines, plan, i, tag, n, JunkBytes(arm), obf);
      WovenStep(lines, plan, i, tag, n, PadBytes(arm), twin);
      obf := obf + [lines[i]];
      twin := twin + [lines[i]];
      if i in of && of[i].Some? && Transfer(arm, lines[i]) {
        n := n + 1;
        obf := obf + Block(tag, n, JunkBytes(arm));
        twin := twin + Block(tag, n, PadBytes(arm));
        pairs := pairs + [(LowLabel(tag, n), HighLabel(tag, n))];
      }
    }
    WovenEnd(lines, plan, tag, n, JunkBytes(arm), obf);
    WovenEnd(lines, plan, tag, n, PadBytes(arm), twin);
  }

  lemma RegionsApart(lines: seq<string>)
    ensures var out := ScanTo(lines, |lines|).out;
            Apart(out) && forall k :: 0 <= k < |out| ==> out[k].start <= out[k].end
  {
    hide ScanTo, FuncStart, FuncEnd;
    RegionsExact(lines, |lines|);
  }

  lemma WovenStart(lines: seq<string>, plan: seq<bool>, tag: string, bytes: string)
    requires |plan| == |lines|
    ensures Woven(lines, plan, tag, 0, bytes) == Then([], Woven(lines[0..], plan[0..], tag, 0, bytes))
    ensures Planned(plan) == 0 + Planned(plan[0..])
  {
    assert lines[0..] == lines && plan[0..] == plan;
    assert [] + Woven(lines, plan, tag, 0, bytes) == Woven(lines, plan, tag, 0, bytes);
  }

  lemma WovenEnd(lines: seq<string>, plan: seq<bool>, tag: string, n: nat, bytes: string, front: seq<string>)
    requires |plan| == |lines|
    ensures Then(front, Woven(lines[|lines|..], plan[|plan|..], tag, n, bytes)) == front && Planned(plan[|plan|..]) == 0
  {
    assert lines[|lines|..] == [] && front + [] == front;
  }

  function Then(front: seq<string>, rest: seq<string>): seq<string> { front + rest }

  lemma WovenStep(lines: seq<string>, plan: seq<bool>, i: nat, tag: string, n: nat, bytes: string, front: seq<string>)
    requires |plan| == |lines| && i < |lines|
    ensures Then(front, Woven(lines[i..], plan[i..], tag, n, bytes)) ==
            if plan[i] then Then(front + [lines[i]] + Block(tag, n + 1, bytes), Woven(lines[i + 1..], plan[i + 1..], tag, n + 1, bytes))
            else Then(front + [lines[i]], Woven(lines[i + 1..], plan[i + 1..], tag, n, bytes))
    ensures Planned(plan[i..]) == (if plan[i] then 1 else 0) + Planned(plan[i + 1..])
  {
    hide Block;
    assert lines[i..][1..] == lines[i + 1..] && plan[i..][1..] == plan[i + 1..];
  }

  lemma Fillings(arm: bool)
    ensures JunkBytes(arm) == if arm then ".byte 0x1f, 0x20, 0x03, 0xd5" else ".byte 0xe8"
    ensures PadBytes(arm) == if arm then ".byte 0x1f, 0x20, 0x03, 0xd5" else ".byte 0x90"
  {
  }

  /** For every text, either architecture and every share: the file and its twin align line by line under any
      size that gives the two fillings one size, hold every planted pair, with a byte 0xE8 in the one and 0x90 in
      the other on x86 and the same word in both on AArch64, differ nowhere else, and both give the input back
      when the planted lines are taken out; by their labels alone, when the input holds none of those. */
  lemma TwinIsSound(lines: seq<string>, arm: bool, p: nat, q: nat, tag: string, size: string -> nat)
    requires q > 0 && size("\t" + JunkBytes(arm)) == size("\t" + PadBytes(arm))
    ensures var plan := Plan(lines, arm, p, q);
            var (obf, twin) := (Woven(lines, plan, tag, 0, JunkBytes(arm)), Woven(lines, plan, tag, 0, PadBytes(arm)));
            && |obf| == |twin|
            && (forall k: nat :: k <= |obf| ==> Address(obf, k, size) == Address(twin, k, size))
            && (forall k: nat :: k < |obf| && obf[k] != twin[k] ==> exists m: nat ::
                  0 < m <= Planned(plan) && 0 < k < |obf| - 1
                  && obf[k - 1] == twin[k - 1] == LowLabel(tag, m) + ":" && obf[k + 1] == twin[k + 1] == HighLabel(tag, m) + ":")
            && Unwoven(obf, plan) == lines && Unwoven(twin, plan) == lines
            && (arm ==> HasPairs(obf, twin, tag, Planned(plan), ".byte 0x1f, 0x20, 0x03, 0xd5", ".byte 0x1f, 0x20, 0x03, 0xd5"))
            && (!arm ==> HasPairs(obf, twin, tag, Planned(plan), ".byte 0xe8", ".byte 0x90"))
            && (Fresh(lines, tag, 0) ==> Erase(obf, tag, 0) == lines && Erase(twin, tag, 0) == lines)
  {
    hide Woven, Unwoven, Erase, Fresh, Address, LowLabel, HighLabel, Plan, JunkBytes, PadBytes, PairAt;
    var plan := Plan(lines, arm, p, q);
    var (a, b) := (JunkBytes(arm), PadBytes(arm));
    var (obf, twin) := (Woven(lines, plan, tag, 0, a), Woven(lines, plan, tag, 0, b));
    TwinsDiffer(lines, plan, tag, 0, a, b, 0);
    forall k: nat | k <= |obf| ensures Address(obf, k, size) == Address(twin, k, size) {
      TwinsAlign(lines, plan, tag, 0, a, b, k, size);
    }
    forall k: nat | k < |obf| && obf[k] != twin[k]
      ensures exists m: nat :: 0 < m <= Planned(plan) && 0 < k < |obf| - 1
                && obf[k - 1] == twin[k - 1] == LowLabel(tag, m) + ":" && obf[k + 1] == twin[k + 1] == HighLabel(tag, m) + ":"
    {
      TwinsDiffer(lines, plan, tag, 0, a, b, k);
    }
    Fillings(arm);
    forall m: nat | 0 < m <= Planned(plan) ensures HasPair(obf, twin, tag, m, a, b) {
      var k := PairsPlanted(lines, plan, tag, 0, a, b, m);
    }
    ErasedIsInput(lines, plan, tag, 0, a);
    ErasedIsInput(lines, plan, tag, 0, b);
    if Fresh(lines, tag, 0) {
      ErasedByLabels(lines, plan, tag, 0, a);
      ErasedByLabels(lines, plan, tag, 0, b);
    }
  }
}
