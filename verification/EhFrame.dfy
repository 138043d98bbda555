/** The records of `.eh_frame` (section 10.6 of LSB Core 5.0): the parser, the printer and their two
    round trips.

    A record list names the CIE of an FDE by its ordinal among the CIEs of the list, which is what the
    Python object reference amounts to: no operation lists one CIE twice, drops one or reorders them. */
module EhFrame {
  import opened Bytes

  datatype Record =
    | Cie(raw: seq<byte>, hasZ: bool)
    | Fde(cie: nat, start: int, length: int, rest: seq<byte>)

  const DWARF64: int := 0xFFFF_FFFF
  const PCREL_SDATA4: byte := 0x1B

  // --- a CIE ---------------------------------------------------------------

  /** An unsigned LEB128 number at `p` (section 7.6 of DWARF 5): its value and the place after it. */
  function UlebAt(b: seq<byte>, p: nat): (r: Result<(nat, nat)>)
    ensures r.Ok? ==> p < r.value.1 <= |b|
    decreases |b| - p
  {
    if p >= |b| then Err
    else if b[p] < 128 then Ok((b[p], p + 1))
    else
      var (v, q) :- UlebAt(b, p + 1);
      Ok((b[p] - 128 + 128 * v, q))
  }

  function Times(a: nat, b: nat): nat { a * b }

  /** A number read behind digits worth `v`, its own digits `scale` up. */
  function Behind7(v: nat, scale: nat, r: Result<(nat, nat)>): Result<(nat, nat)> {
    if r.Ok? then Ok((v + Times(r.value.0, scale), r.value.1)) else Err
  }

  lemma UlebDigit(b: seq<byte>, p: nat, v: nat, scale: nat)
    requires p < |b|
    ensures Behind7(v, scale, UlebAt(b, p)) ==
            if b[p] < 128 then Ok((v + Times(b[p], scale), p + 1))
            else Behind7(v + Times(b[p] - 128, scale), Times(scale, 128), UlebAt(b, p + 1))
  {
    if b[p] >= 128 && UlebAt(b, p + 1).Ok? {
      DigitShifted(b[p] - 128, UlebAt(b, p + 1).value.0, scale);
    }
  }

  lemma DigitShifted(c: nat, tail: nat, scale: nat)
    ensures Times(c + 128 * tail, scale) == Times(c, scale) + Times(tail, Times(scale, 128))
  {
    assert (128 * tail) * scale == tail * (scale * 128);
    assert (c + 128 * tail) * scale == c * scale + (128 * tail) * scale;
  }

  method Uleb(b: seq<byte>, start: nat) returns (r: Result<(nat, nat)>)
    ensures r == UlebAt(b, start)
  {
    assert UlebAt(b, start) == Behind7(0, 1, UlebAt(b, start));
    hide Behind7, UlebAt, Times;
    var p: nat, v: nat, scale: nat := start, 0, 1;
    while p < |b|
      invariant UlebAt(b, start) == Behind7(v, scale, UlebAt(b, p))
    {
      UlebDigit(b, p, v, scale);
      var c := b[p];
      p := p + 1;
      if c < 128 {
        return Ok((v + Times(c, scale), p));
      }
      v := v + Times(c - 128, scale);
      scale := Times(scale, 128);
    }
    UlebEnd(b, p, v, scale);
    return Err;
  }

  lemma UlebEnd(b: seq<byte>, p: nat, v: nat, scale: nat)
    requires p >= |b|
    ensures Behind7(v, scale, UlebAt(b, p)) == Err
  {
  }

  /** `raw.index(0, p)`. */
  function ZeroAt(raw: seq<byte>, p: nat): (r: Result<nat>)
    ensures r.Ok? ==> p <= r.value < |raw| && raw[r.value] == 0 && forall k :: p <= k < r.value ==> raw[k] != 0
    ensures r.Err? ==> forall k :: p <= k < |raw| ==> raw[k] != 0
    decreases |raw| - p
  {
    if p >= |raw| then Err else if raw[p] == 0 then Ok(p) else ZeroAt(raw, p + 1)
  }

  /** The augmentation letters after `z`: the FDE pointer encoding they state, `enc` if none does. */
  function Augmentation(letters: seq<byte>, raw: seq<byte>, p: nat, enc: byte): Result<byte> {
    if letters == [] then Ok(enc)
    else if letters[0] == 'R' as int then
      if p < |raw| then Augmentation(letters[1..], raw, p + 1, raw[p]) else Err
    else if letters[0] == 'S' as int || letters[0] == 'B' as int then Augmentation(letters[1..], raw, p, enc)
    else Err
  }

  predicate StartsWithZ(letters: seq<byte>) {
    letters != [] && letters[0] == 'z' as int
  }

  /** `_parse_cie`. Only a `z` augmentation can state the one encoding this editor writes. */
  function ParseCie(raw: seq<byte>): (r: Result<Record>)
    ensures r.Ok? ==> |raw| >= 10 && r.value == Cie(raw, true)
  {
    var end :- ZeroAt(raw, 9);
    var aug := raw[9..end];
    var (_, p1) :- UlebAt(raw, end + 1);
    var (_, p2) :- UlebAt(raw, p1);
    var p3 :- if raw[8] == 1 then Ok(p2 + 1) else (var (_, q) :- UlebAt(raw, p2); Ok(q));
    var enc :-
      if StartsWithZ(aug) then (var (_, p4) :- UlebAt(raw, p3); Augmentation(aug[1..], raw, p4, 0))
      else Ok(0);
    if enc == PCREL_SDATA4 then Ok(Cie(raw, StartsWithZ(aug))) else Err
  }

  method ParseCieRecord(raw: seq<byte>) returns (r: Result<Record>)
    ensures r == ParseCie(raw)
  {
    hide UlebAt, ZeroAt;
    var end :- ZeroAt(raw, 9);
    var aug := raw[9..end];
    var u1 :- Uleb(raw, end + 1);
    var u2 :- Uleb(raw, u1.1);
    var p: nat := u2.1;
    if raw[8] == 1 {
      p := p + 1;
    } else {
      var u3 :- Uleb(raw, p);
      p := u3.1;
    }
    var enc: byte := 0;
    if StartsWithZ(aug) {
      var u4 :- Uleb(raw, p);
      p := u4.1;
      var i := 1;
      while i < |aug|
        invariant 1 <= i <= |aug|
        invariant Augmentation(aug[1..], raw, u4.1, 0) == Augmentation(aug[i..], raw, p, enc)
      {
        assert aug[i..][1..] == aug[i + 1..];
        if aug[i] == 'R' as int {
          if p >= |raw| { return Err; }
          enc := raw[p];
          p := p + 1;
        } else if aug[i] != 'S' as int && aug[i] != 'B' as int {
          return Err;
        }
        i := i + 1;
      }
    }
    return if enc == PCREL_SDATA4 then Ok(Cie(raw, StartsWithZ(aug))) else Err;
  }

  // --- what a CIE is -------------------------------------------------------

  /** A number as section 7.6 of DWARF 5 writes it: seven bits a byte, the lowest first. */
  function LebBytes(n: nat): (s: seq<byte>)
    ensures s != []
  {
    if n < 128 then [n] else [128 + n % 128] + LebBytes(n / 128)
  }

  /** Reading a written number gives it back, wherever it stands. */
  lemma {:induction false} UlebReads(pre: seq<byte>, n: nat, post: seq<byte>)
    ensures UlebAt(pre + LebBytes(n) + post, |pre|) == Ok((n, |pre| + |LebBytes(n)|))
    decreases n
  {
    var b := pre + LebBytes(n) + post;
    if n >= 128 {
      var first: byte := 128 + n % 128;
      UlebReads(pre + [first], n / 128, post);
      assert b == (pre + [first]) + LebBytes(n / 128) + post;
      assert b[|pre|] == first;
    } else {
      assert b[|pre|] == n;
    }
  }

  /** Bytes that make one such number: all but the last have the high bit. */
  predicate IsLeb(s: seq<byte>) {
    s != [] && s[|s| - 1] < 128 && forall i :: 0 <= i < |s| - 1 ==> s[i] >= 128
  }

  /** The reader passes over exactly such bytes. */
  lemma {:induction false} LebPassed(b: seq<byte>, p: nat, q: nat)
    ensures (UlebAt(b, p).Ok? && UlebAt(b, p).value.1 == q) <==> p < q <= |b| && IsLeb(b[p..q])
    decreases |b| - p
  {
    if p < |b| {
      if b[p] >= 128 {
        LebPassed(b, p + 1, q);
        LebOneMore(b, p, q);
      } else if p < q <= |b| {
        LebEnds(b, p, q);
      }
    }
  }

  lemma LebOneMore(b: seq<byte>, p: nat, q: nat)
    requires p < |b| && b[p] >= 128
    ensures p < q <= |b| && IsLeb(b[p..q]) <==> p + 1 < q <= |b| && IsLeb(b[p + 1..q])
  {
    if p < q <= |b| {
      var s := b[p..q];
      assert s[0] == b[p] && forall i :: 1 <= i < |s| ==> s[i] == b[p + i];
      if p + 1 < q {
        var t := b[p + 1..q];
        assert |t| == |s| - 1 && forall i :: 0 <= i < |t| ==> t[i] == s[i + 1];
        assert IsLeb(t) ==> forall i :: 1 <= i < |s| - 1 ==> s[i] == t[i - 1] >= 128;
      }
    }
  }

  lemma LebEnds(b: seq<byte>, p: nat, q: nat)
    requires p < q <= |b| && b[p] < 128
    ensures IsLeb(b[p..q]) <==> q == p + 1
  {
    assert b[p..q][0] == b[p];
  }

  function HowMany(letters: seq<byte>, c: byte): (n: nat)
    ensures n <= |letters|
  {
    if letters == [] then 0 else (if letters[0] == c then 1 else 0) + HowMany(letters[1..], c)
  }

  /** The letters are known ones, each `R` has its byte behind `p`, and the last of them is the encoding. */
  lemma {:induction false} AugmentationIs(letters: seq<byte>, raw: seq<byte>, p: nat, enc: byte)
    requires p <= |raw|
    ensures var (r, n) := (Augmentation(letters, raw, p, enc), HowMany(letters, 'R' as int));
            && (r.Ok? <==> (forall i :: 0 <= i < |letters| ==> letters[i] in {'R' as int, 'S' as int, 'B' as int}) && p + n <= |raw|)
            && (r.Ok? ==> r.value == if n == 0 then enc else raw[p + n - 1])
    decreases letters
  {
    if letters != [] {
      assert forall i :: 1 <= i < |letters| ==> letters[i] == letters[1..][i - 1];
      if letters[0] != 'R' as int {
        AugmentationIs(letters[1..], raw, p, enc);
      } else if p < |raw| {
        AugmentationIs(letters[1..], raw, p + 1, raw[p]);
      }
    }
  }

  /** The parts of a CIE (section 10.6.1.1 of LSB Core 5.0): length and identifier, version, augmentation letters,
      code and data alignment, return address register, size of the augmentation data, and the rest. */
  datatype CieParts = CieParts(head: seq<byte>, version: byte, letters: seq<byte>, code: seq<byte>, data: seq<byte>,
                               register: seq<byte>, size: seq<byte>, rest: seq<byte>) {
    function Bytes(): seq<byte> {
      head + [version] + letters + [0] + code + data + register + size + rest
    }

    /** Each part is well formed: the register is one byte in version 1 and a number since. */
    predicate Valid() {
      && |head| == 8 && (forall i :: 0 <= i < |letters| ==> letters[i] != 0)
      && IsLeb(code) && IsLeb(data) && (if version == 1 then |register| == 1 else IsLeb(register)) && IsLeb(size)
    }

    /** The letters are a `z` and then known ones, and the byte of the last `R` states pcrel sdata4. */
    predicate States() {
      && StartsWithZ(letters)
      && (forall i :: 1 <= i < |letters| ==> letters[i] in {'R' as int, 'S' as int, 'B' as int})
      && var n := HowMany(letters[1..], 'R' as int); 0 < n <= |rest| && rest[n - 1] == 0x10 + 0x0B
    }
  }

  /** Where each part of the bytes lies. */
  lemma PartsAt(c: CieParts, raw: seq<byte>)
    requires c.Valid() && raw == c.Bytes()
    ensures var e := 9 + |c.letters|;
            var p1 := e + 1 + |c.code|; var p2 := p1 + |c.data|; var p3 := p2 + |c.register|; var p4 := p3 + |c.size|;
            && p4 + |c.rest| == |raw| && raw[8] == c.version && raw[9..e] == c.letters && raw[e] == 0
            && raw[e + 1..p1] == c.code && raw[p1..p2] == c.data && raw[p2..p3] == c.register && raw[p3..p4] == c.size && raw[p4..] == c.rest
  {
    hide IsLeb;
    var a1 := c.head + [c.version];
    var a2 := a1 + c.letters;
    var a3 := a2 + [0];
    var a4 := a3 + c.code;
    var a5 := a4 + c.data;
    var a6 := a5 + c.register;
    var a7 := a6 + c.size;
    assert raw == a7 + c.rest;
    PartAt(raw, a6, c.size);
    PartAt(raw, a5, c.register);
    PartAt(raw, a4, c.data);
    PartAt(raw, a3, c.code);
    PartAt(raw, a2, [0]);
    PartAt(raw, a1, c.letters);
    PartAt(raw, c.head, [c.version]);
    assert raw[8..9][0] == raw[8] && raw[|a2|..|a2| + 1][0] == raw[|a2|];
  }

  lemma PartAt(raw: seq<byte>, front: seq<byte>, part: seq<byte>)
    requires front + part <= raw
    ensures front <= raw && raw[|front|..|front| + |part|] == part
  {
    assert raw[..|front| + |part|] == front + part;
    assert raw[..|front|] == (front + part)[..|front|] == front;
    assert raw[|front|..|front| + |part|] == (front + part)[|front|..];
  }

  /** What decides, the places of the parts known. */
  lemma ParseFrom(raw: seq<byte>, e: nat, p1: nat, p2: nat, p3: nat, p4: nat)
    requires ZeroAt(raw, 9) == Ok(e)
    requires UlebAt(raw, e + 1).Ok? && UlebAt(raw, e + 1).value.1 == p1 && UlebAt(raw, p1).Ok? && UlebAt(raw, p1).value.1 == p2
    requires if raw[8] == 1 then p3 == p2 + 1 else UlebAt(raw, p2).Ok? && UlebAt(raw, p2).value.1 == p3
    requires UlebAt(raw, p3).Ok? && UlebAt(raw, p3).value.1 == p4
    ensures ParseCie(raw).Ok? <==>
            StartsWithZ(raw[9..e]) && Augmentation(raw[9..e][1..], raw, p4, 0) == Ok(PCREL_SDATA4)
  {
    hide UlebAt, ZeroAt, Augmentation;
  }

  lemma StatesIs(c: CieParts, raw: seq<byte>, p4: nat)
    requires StartsWithZ(c.letters) && p4 <= |raw| && raw[p4..] == c.rest
    ensures Augmentation(c.letters[1..], raw, p4, 0) == Ok(PCREL_SDATA4) <==> c.States()
  {
    hide Augmentation, HowMany;
    var more := c.letters[1..];
    AugmentationIs(more, raw, p4, 0);
    assert forall i :: 0 <= i < |more| ==> more[i] == c.letters[i + 1];
    assert (forall i :: 1 <= i < |c.letters| ==> c.letters[i] == more[i - 1]);
    var n := HowMany(more, 'R' as int);
    assert 0 < n <= |c.rest| ==> raw[p4 + n - 1] == raw[p4..][n - 1];
  }

  /** `_parse_cie` accepts a well-formed CIE exactly when it states the one encoding the editor writes. */
  lemma CieAccepted(c: CieParts, raw: seq<byte>)
    requires c.Valid() && raw == c.Bytes()
    ensures ParseCie(raw).Ok? <==> c.States()
  {
    hide UlebAt, IsLeb, ZeroAt, Augmentation, HowMany, ParseCie;
    PartsAt(c, raw);
    var e := 9 + |c.letters|;
    var p1 := e + 1 + |c.code|;
    var p2 := p1 + |c.data|;
    var p3 := p2 + |c.register|;
    var p4 := p3 + |c.size|;
    LettersEnd(raw, e, c.letters);
    LebsNotEmpty(c);
    LebPassed(raw, e + 1, p1);
    LebPassed(raw, p1, p2);
    LebPassed(raw, p2, p3);
    LebPassed(raw, p3, p4);
    ParseFrom(raw, e, p1, p2, p3, p4);
    if StartsWithZ(c.letters) {
      StatesIs(c, raw, p4);
    }
  }

  lemma LebsNotEmpty(c: CieParts)
    requires c.Valid()
    ensures |c.code| > 0 && |c.data| > 0 && |c.register| > 0 && |c.size| > 0
  {
  }

  lemma LettersEnd(raw: seq<byte>, e: nat, letters: seq<byte>)
    requires 9 <= e < |raw| && raw[9..e] == letters && raw[e] == 0 && forall i :: 0 <= i < |letters| ==> letters[i] != 0
    ensures ZeroAt(raw, 9) == Ok(e)
  {
    hide ZeroAt;
    assert forall k :: 9 <= k < e ==> raw[k] == letters[k - 9];
  }

  /** And accepts nothing else. */
  lemma CieHasParts(raw: seq<byte>) returns (c: CieParts)
    requires ParseCie(raw).Ok?
    ensures c.Valid() && raw == c.Bytes() && c.States()
  {
    hide UlebAt, IsLeb, ZeroAt, Augmentation, HowMany, ParseCie;
    var at := PlacesIn(raw);
    var Places(end, p1, p2, p3, p4) := at;
    LebPassed(raw, end + 1, p1);
    LebPassed(raw, p1, p2);
    if raw[8] != 1 { LebPassed(raw, p2, p3); }
    LebPassed(raw, p3, p4);
    c := CieParts(raw[..8], raw[8], raw[9..end], raw[end + 1..p1], raw[p1..p2], raw[p2..p3], raw[p3..p4], raw[p4..]);
    Rejoined(raw, end, p1, p2, p3, p4);
    CieAccepted(c, raw);
  }

  /** The end of the letters, and the places behind the four numbers. */
  datatype Places = Places(end: nat, p1: nat, p2: nat, p3: nat, p4: nat)

  lemma PlacesIn(raw: seq<byte>) returns (at: Places)
    requires ParseCie(raw).Ok?
    ensures ZeroAt(raw, 9) == Ok(at.end) && |raw| > 8
    ensures UlebAt(raw, at.end + 1).Ok? && UlebAt(raw, at.end + 1).value.1 == at.p1
    ensures UlebAt(raw, at.p1).Ok? && UlebAt(raw, at.p1).value.1 == at.p2
    ensures if raw[8] == 1 then at.p3 == at.p2 + 1 else UlebAt(raw, at.p2).Ok? && UlebAt(raw, at.p2).value.1 == at.p3
    ensures UlebAt(raw, at.p3).Ok? && UlebAt(raw, at.p3).value.1 == at.p4 && at.p3 < |raw|
  {
    hide UlebAt, ZeroAt, Augmentation;
    var end := ZeroAt(raw, 9).value;
    var p1 := UlebAt(raw, end + 1).value.1;
    var p2 := UlebAt(raw, p1).value.1;
    var p3 := if raw[8] == 1 then p2 + 1 else UlebAt(raw, p2).value.1;
    at := Places(end, p1, p2, p3, UlebAt(raw, p3).value.1);
  }

  /** A CIE is accepted if and only if it is made of such parts. */
  lemma CieExactly(raw: seq<byte>)
    ensures ParseCie(raw).Ok? <==> exists c: CieParts :: c.Valid() && raw == c.Bytes() && c.States()
  {
    hide ParseCie;
    if ParseCie(raw).Ok? {
      var c := CieHasParts(raw);
    }
    if c: CieParts :| c.Valid() && raw == c.Bytes() && c.States() {
      CieAccepted(c, raw);
    }
  }

  lemma Rejoined(raw: seq<byte>, end: nat, p1: nat, p2: nat, p3: nat, p4: nat)
    requires 9 <= end < p1 <= p2 <= p3 <= p4 <= |raw| && raw[end] == 0
    ensures raw[..8] + [raw[8]] + raw[9..end] + [0] + raw[end + 1..p1] + raw[p1..p2] + raw[p2..p3] + raw[p3..p4] + raw[p4..] == raw
  {
  }

  // --- the reader ----------------------------------------------------------

  /** The place of `key` among the offsets of the CIEs read so far (`cies[key]`). */
  function OrdinalAt(cies: seq<nat>, key: int): (r: Result<nat>)
    ensures r.Ok? ==> r.value < |cies| && cies[r.value] == key
    ensures r.Err? ==> key !in cies
  {
    if cies == [] then Err
    else if cies[|cies| - 1] == key then Ok(|cies| - 1)
    else OrdinalAt(cies[..|cies| - 1], key)
  }

  /** The FDE whose length field is at `off`, its CIE left to the caller: start, length, rest. */
  function FdeAt(data: seq<byte>, addr: int, off: nat): (r: Result<(int, int, seq<byte>)>) {
    if off + 16 > |data| then Err
    else
      var body := off + 4;
      Ok((addr + body + 4 + I32(data, body + 4), U32(data, body + 8), Slice(data, body + 12, body + U32(data, off))))
  }

  /** One turn of the reader's loop: the end of the table, or a record and its length field. */
  datatype Step = Done | Next(record: Record, n: nat)

  function StepAt(data: seq<byte>, addr: int, off: nat, cies: seq<nat>): (r: Result<Step>)
    ensures r.Ok? && r.value.Next? ==> off + 4 <= |data|
  {
    if off + 4 > |data| then Ok(Done)
    else
      var n := U32(data, off);
      if n == 0 then Ok(Done)
      else if n == DWARF64 || off + 8 > |data| then Err
      else
        var ident := U32(data, off + 4);
        if ident == 0 then
          var c :- ParseCie(Slice(data, off, off + 4 + n));
          Ok(Next(c, n))
        else
          var k :- OrdinalAt(cies, off + 4 - ident);
          var (start, length, rest) :- FdeAt(data, addr, off);
          Ok(Next(Fde(k, start, length, rest), n))
  }

  /** The CIE offsets known after the record `r` at `off`. */
  function Seen(cies: seq<nat>, r: Record, off: nat): seq<nat> {
    if r.Cie? then cies + [off] else cies
  }

  /** `read_eh` from `off` on, the CIEs before it at the offsets `cies`. */
  function ReadFrom(data: seq<byte>, addr: int, off: nat, cies: seq<nat>): (r: Result<seq<Record>>)
    decreases |data| - off
  {
    var step :- StepAt(data, addr, off, cies);
    if step.Done? then Ok([])
    else Prepend([step.record], ReadFrom(data, addr, off + 4 + step.n, Seen(cies, step.record, off)))
  }

  /** `read_eh`, on the bytes of the section and its address. */
  function Read(data: seq<byte>, addr: int): Result<seq<Record>> {
    ReadFrom(data, addr, 0, [])
  }

  function Prepend(out: seq<Record>, r: Result<seq<Record>>): Result<seq<Record>> {
    if r.Ok? then Ok(out + r.value) else Err
  }

  lemma PrependNil(a: seq<Record>, r: Result<seq<Record>>)
    ensures Prepend([], r) == r && Prepend(a, Ok([])) == Ok(a)
  {
    if r.Ok? {
      assert [] + r.value == r.value;
    }
    assert a + [] == a;
  }

  lemma PrependTwice(a: seq<Record>, b: seq<Record>, r: Result<seq<Record>>)
    ensures Prepend(a, Prepend(b, r)) == Prepend(a + b, r)
  {
    if r.Ok? {
      assert a + (b + r.value) == a + b + r.value;
    }
  }

  method ReadStep(data: seq<byte>, addr: int, off: nat, cies: seq<nat>) returns (r: Result<Step>)
    ensures r == StepAt(data, addr, off, cies)
  {
    hide ParseCie, OrdinalAt, FdeAt, U32, Slice;
    if off + 4 > |data| { return Ok(Done); }
    var n := U32(data, off);
    if n == 0 { return Ok(Done); }
    if n == DWARF64 { return Err; }
    var body := off + 4;
    if body + 4 > |data| { return Err; }
    var ident := U32(data, body);
    if ident == 0 {
      var c :- ParseCieRecord(Slice(data, off, body + n));
      return Ok(Next(c, n));
    }
    var k :- OrdinalAt(cies, body - ident);
    var fde :- FdeAt(data, addr, off);
    return Ok(Next(Fde(k, fde.0, fde.1, fde.2), n));
  }

  method ReadEh(data: seq<byte>, addr: int) returns (r: Result<seq<Record>>)
    ensures r == Read(data, addr)
  {
    hide StepAt;
    var out: seq<Record>, cies: seq<nat>, off: nat := [], [], 0;
    var step :- ReadStep(data, addr, off, cies);
    PrependNil([], Read(data, addr));
    while step.Next?
      invariant Ok(step) == StepAt(data, addr, off, cies)
      invariant Read(data, addr) == Prepend(out, ReadFrom(data, addr, off, cies))
      decreases |data| - off
    {
      PrependTwice(out, [step.record], ReadFrom(data, addr, off + 4 + step.n, Seen(cies, step.record, off)));
      cies := Seen(cies, step.record, off);
      out := out + [step.record];
      off := off + 4 + step.n;
      step :- ReadStep(data, addr, off, cies);
    }
    PrependNil(out, Ok([]));
    return Ok(out);
  }

  // --- the printer ---------------------------------------------------------

  function RecordSize(r: Record): nat {
    match r
    case Cie(raw, _) => |raw|
    case Fde(_, _, _, rest) => 16 + |rest|
  }

  /** One FDE at section offset `off`, its CIE at `cieOff`; raises when a field does not fit. */
  function FdeBytes(r: Record, va: int, off: nat, cieOff: nat): (s: Result<seq<byte>>)
    requires r.Fde?
    ensures s.Ok? ==> |s.value| == RecordSize(r)
  {
    var body := off + 4;
    var pc := r.start - (va + body + 4);
    if FitsU32(12 + |r.rest|) && FitsU32(body - cieOff) && FitsI32(pc) && FitsU32(r.length)
    then Ok(Le32(12 + |r.rest|) + Le32(body - cieOff) + LeI32(pc) + Le32(r.length) + r.rest)
    else Err
  }

  function PrependBytes(out: seq<byte>, r: Result<seq<byte>>): Result<seq<byte>> {
    if r.Ok? then Ok(out + r.value) else Err
  }

  lemma PrependBytesTwice(a: seq<byte>, b: seq<byte>, r: Result<seq<byte>>)
    ensures PrependBytes(a, PrependBytes(b, r)) == PrependBytes(a + b, r)
  {
    if r.Ok? {
      assert a + (b + r.value) == a + b + r.value;
    }
  }

  /** `_serialize_eh` from section offset `off` on, the CIEs before it at the offsets `where`. */
  function SerializeFrom(rs: seq<Record>, va: int, off: nat, where: seq<nat>): (r: Result<seq<byte>>)
    ensures r.Ok? ==> |r.value| == SerializedSize(rs)
  {
    if rs == [] then Ok(Zeros(4))
    else if rs[0].Cie? then
      PrependBytes(rs[0].raw, SerializeFrom(rs[1..], va, off + RecordSize(rs[0]), where + [off]))
    else if rs[0].cie >= |where| then Err
    else
      var mine :- FdeBytes(rs[0], va, off, where[rs[0].cie]);
      PrependBytes(mine, SerializeFrom(rs[1..], va, off + RecordSize(rs[0]), where))
  }

  /** `_serialize_eh`: the whole section, printed for the address `va`. */
  function Serialize(rs: seq<Record>, va: int): (r: Result<seq<byte>>)
    ensures r.Ok? ==> |r.value| == SerializedSize(rs)
  {
    SerializeFrom(rs, va, 0, [])
  }

  /** The size of the section: it does not depend on where the section goes. */
  function SerializedSize(rs: seq<Record>): (n: nat)
    ensures n >= 4
  {
    if rs == [] then 4 else RecordSize(rs[0]) + SerializedSize(rs[1..])
  }

  /** (start, record address) of each FDE, in record order: what `.eh_frame_hdr` is built from. */
  function TableFrom(rs: seq<Record>, va: int, off: nat): seq<(int, int)> {
    if rs == [] then []
    else if rs[0].Cie? then TableFrom(rs[1..], va, off + RecordSize(rs[0]))
    else [(rs[0].start, va + off)] + TableFrom(rs[1..], va, off + RecordSize(rs[0]))
  }

  function Table(rs: seq<Record>, va: int): seq<(int, int)> {
    TableFrom(rs, va, 0)
  }

  /** The printer's turn at record `i`. */
  lemma PrintTurn(rs: seq<Record>, i: nat, va: int, out: seq<byte>, where: seq<nat>, mine: seq<byte>)
    requires i < |rs|
    requires if rs[i].Cie? then mine == rs[i].raw
             else rs[i].cie < |where| && FdeBytes(rs[i], va, |out|, where[rs[i].cie]) == Ok(mine)
    ensures |mine| == RecordSize(rs[i])
    ensures PrependBytes(out, SerializeFrom(rs[i..], va, |out|, where)) ==
            PrependBytes(out + mine, SerializeFrom(rs[i + 1..], va, |out + mine|, Seen(where, rs[i], |out|)))
  {
    hide FdeBytes;
    assert rs[i..][0] == rs[i] && rs[i..][1..] == rs[i + 1..];
    PrependBytesTwice(out, mine, SerializeFrom(rs[i + 1..], va, |out + mine|, Seen(where, rs[i], |out|)));
  }

  lemma TableTurn(rs: seq<Record>, i: nat, va: int, off: nat, table: seq<(int, int)>)
    requires i < |rs|
    ensures table + TableFrom(rs[i..], va, off) ==
            (if rs[i].Fde? then table + [(rs[i].start, va + off)] else table) + TableFrom(rs[i + 1..], va, off + RecordSize(rs[i]))
  {
    assert rs[i..][0] == rs[i] && rs[i..][1..] == rs[i + 1..];
  }

  lemma PrintStops(rs: seq<Record>, i: nat, va: int, off: nat, where: seq<nat>)
    requires i < |rs| && rs[i].Fde?
    requires rs[i].cie >= |where| || FdeBytes(rs[i], va, off, where[rs[i].cie]).Err?
    ensures SerializeFrom(rs[i..], va, off, where).Err?
  {
    hide FdeBytes;
    assert rs[i..][0] == rs[i];
  }

  method SerializeEh(rs: seq<Record>, va: int) returns (r: Result<(seq<byte>, seq<(int, int)>)>)
    ensures r.Ok? <==> Serialize(rs, va).Ok?
    ensures r.Ok? ==> r.value == (Serialize(rs, va).value, Table(rs, va))
  {
    hide FdeBytes, SerializeFrom, TableFrom, RecordSize, PrependBytes;
    var out: seq<byte>, where: seq<nat>, table: seq<(int, int)> := [], [], [];
    PrintStart(rs, va);
    for i := 0 to |rs|
      invariant Serialize(rs, va) == PrependBytes(out, SerializeFrom(rs[i..], va, |out|, where))
      invariant Table(rs, va) == table + TableFrom(rs[i..], va, |out|)
    {
      var off := |out|;
      var mine := [];
      TableTurn(rs, i, va, off, table);
      if rs[i].Cie? {
        mine := rs[i].raw;
      } else {
        var bytes := if rs[i].cie >= |where| then Err else FdeBytes(rs[i], va, off, where[rs[i].cie]);
        if bytes.Err? {
          PrintStops(rs, i, va, off, where);
          PrintEnd(out, SerializeFrom(rs[i..], va, off, where));
          return Err;
        }
        mine := bytes.value;
        table := table + [(rs[i].start, va + off)];
      }
      PrintTurn(rs, i, va, out, where, mine);
      where := Seen(where, rs[i], off);
      out := out + mine;
    }
    PrintEnd(out, Ok(Zeros(4)));
    Nothing(va, |out|, where);
    assert rs[|rs|..] == [] && table + [] == table;
    return Ok((out + Zeros(4), table));
  }

  lemma PrintStart(rs: seq<Record>, va: int)
    ensures Serialize(rs, va) == PrependBytes([], SerializeFrom(rs[0..], va, 0, []))
    ensures Table(rs, va) == [] + TableFrom(rs[0..], va, 0)
  {
    assert rs[0..] == rs && [] + Table(rs, va) == Table(rs, va);
    if Serialize(rs, va).Ok? {
      assert [] + Serialize(rs, va).value == Serialize(rs, va).value;
    }
  }

  lemma PrintEnd(out: seq<byte>, r: Result<seq<byte>>)
    ensures PrependBytes(out, r) == if r.Ok? then Ok(out + r.value) else Err
  {
  }

  lemma Nothing(va: int, off: nat, where: seq<nat>)
    ensures SerializeFrom([], va, off, where) == Ok(Zeros(4)) && TableFrom([], va, off) == []
  {
  }

  // --- reading what was printed --------------------------------------------

  /** What makes a printed record come back as itself: a CIE that is whole and that `_parse_cie`
      accepts; an FDE whose length field is not the escape for 64-bit DWARF. */
  predicate Readable(r: Record) {
    match r
    case Cie(raw, hasZ) => ParseCie(raw) == Ok(r) && U32(raw, 0) == |raw| - 4 != DWARF64 && U32(raw, 4) == 0
    case Fde(_, _, _, rest) => 12 + |rest| != DWARF64
  }

  predicate AllReadable(rs: seq<Record>) {
    forall i :: 0 <= i < |rs| ==> Readable(rs[i])
  }

  /** CIE offsets: ascending and behind `off`. */
  predicate Behind(where: seq<nat>, off: nat) {
    && (forall i :: 0 <= i < |where| ==> where[i] < off)
    && (forall i, j :: 0 <= i < j < |where| ==> where[i] < where[j])
  }

  lemma BehindNext(where: seq<nat>, off: nat, r: Record)
    requires Behind(where, off) && RecordSize(r) > 0
    ensures Behind(Seen(where, r, off), off + RecordSize(r))
  {
  }

  lemma OrdinalOf(where: seq<nat>, off: nat, k: nat)
    requires Behind(where, off) && k < |where|
    ensures OrdinalAt(where, where[k]) == Ok(k)
  {
  }

  lemma U32In(pre: seq<byte>, s: seq<byte>, post: seq<byte>, off: nat)
    requires off + 4 <= |s|
    ensures U32(pre + s + post, |pre| + off) == U32(s, off)
    ensures I32(pre + s + post, |pre| + off) == I32(s, off)
  {
    assert (pre + s + post)[|pre| + off..|pre| + off + 4] == s[off..off + 4];
  }

  /** The fields of a printed FDE read back. */
  lemma FdeFields(r: Record, va: int, off: nat, cieOff: nat)
    requires r.Fde? && cieOff < off + 4
    requires FdeBytes(r, va, off, cieOff).Ok?
    ensures var s := FdeBytes(r, va, off, cieOff).value;
            && U32(s, 0) == 12 + |r.rest|
            && U32(s, 4) == off + 4 - cieOff
            && I32(s, 8) == r.start - (va + off + 8)
            && U32(s, 12) == r.length
            && s[16..] == r.rest
  {
    var s := FdeBytes(r, va, off, cieOff).value;
    var pc := r.start - (va + off + 8);
    var a, b, c, d := Le32(12 + |r.rest|), Le32(off + 4 - cieOff), LeI32(pc), Le32(r.length);
    assert s == a + b + c + d + r.rest;
    assert s[0..4] == a && s[4..8] == b && s[8..12] == c && s[12..16] == d && s[16..] == r.rest;
    U32OfLe32(s, 0, 12 + |r.rest|);
    U32OfLe32(s, 4, off + 4 - cieOff);
    I32OfLeI32(s, 8, pc);
    U32OfLe32(s, 12, r.length);
  }

  lemma FdeInPlace(r: Record, va: int, pre: seq<byte>, cieOff: nat, post: seq<byte>)
    requires r.Fde? && cieOff < |pre| + 4
    requires FdeBytes(r, va, |pre|, cieOff).Ok?
    ensures var data := pre + FdeBytes(r, va, |pre|, cieOff).value + post;
            && U32(data, |pre|) == 12 + |r.rest|
            && U32(data, |pre| + 4) == |pre| + 4 - cieOff
            && FdeAt(data, va, |pre|) == Ok((r.start, r.length, r.rest))
  {
    FdeFields(r, va, |pre|, cieOff);
    var s := FdeBytes(r, va, |pre|, cieOff).value;
    hide FdeBytes, U32, I32;
    var data := pre + s + post;
    U32In(pre, s, post, 0);
    U32In(pre, s, post, 4);
    U32In(pre, s, post, 8);
    U32In(pre, s, post, 12);
    var lo := |pre| + 16;
    assert data[lo..lo + |r.rest|] == s[16..];
  }

  /** The reader's turn at a printed CIE. */
  lemma CieStep(r: Record, va: int, pre: seq<byte>, post: seq<byte>, where: seq<nat>)
    requires |post| >= 4 && r.Cie?
    ensures var step := StepAt(pre + r.raw + post, va, |pre|, where);
            if Readable(r) then step == Ok(Next(r, RecordSize(r) - 4))
            else step.Ok? && step.value.Next? ==> step.value.record != r
  {
    hide ParseCie, FdeAt;
    var raw := r.raw;
    var data := pre + raw + post;
    var step := StepAt(data, va, |pre|, where);
    if Readable(r) {
      U32In(pre, raw, post, 0);
      U32In(pre, raw, post, 4);
      assert data[|pre|..|pre| + |raw|] == raw;
    } else if step.Ok? && step.value.Next? && step.value.record == r {
      var n := U32(data, |pre|);
      var s := Slice(data, |pre|, |pre| + 4 + n);
      assert ParseCie(s) == Ok(r);
      assert |raw| == 4 + n >= 10;
      U32In(pre, raw, post, 0);
      U32In(pre, raw, post, 4);
      assert false;
    }
  }

  /** The reader's turn at a printed FDE. */
  lemma FdeStep(r: Record, va: int, pre: seq<byte>, post: seq<byte>, where: seq<nat>)
    requires r.Fde? && r.cie < |where| && Behind(where, |pre|)
    requires FdeBytes(r, va, |pre|, where[r.cie]).Ok?
    ensures var data := pre + FdeBytes(r, va, |pre|, where[r.cie]).value + post;
            StepAt(data, va, |pre|, where) == if Readable(r) then Ok(Next(r, RecordSize(r) - 4)) else Err
  {
    FdeInPlace(r, va, pre, where[r.cie], post);
    OrdinalOf(where, |pre|, r.cie);
    hide FdeBytes, FdeAt, U32;
  }

  /** The first record's own bytes, and the reader's turn at them. */
  lemma FirstPrinted(rs: seq<Record>, va: int, pre: seq<byte>, where: seq<nat>) returns (mine: seq<byte>)
    requires rs != [] && Behind(where, |pre|)
    requires SerializeFrom(rs, va, |pre|, where).Ok?
    ensures |mine| == RecordSize(rs[0])
    ensures var post := SerializeFrom(rs[1..], va, |pre| + |mine|, Seen(where, rs[0], |pre|));
            post.Ok? && pre + SerializeFrom(rs, va, |pre|, where).value == (pre + mine) + post.value
    ensures var step := StepAt(pre + SerializeFrom(rs, va, |pre|, where).value, va, |pre|, where);
            if Readable(rs[0]) then step == Ok(Next(rs[0], RecordSize(rs[0]) - 4))
            else step.Ok? && step.value.Next? ==> step.value.record != rs[0]
    ensures StepAt(pre + SerializeFrom(rs, va, |pre|, where).value, va, |pre|, where) == Ok(Done) ==> !Readable(rs[0])
  {
    hide StepAt, FdeBytes, Readable;
    var r := rs[0];
    mine := if r.Cie? then r.raw else FdeBytes(r, va, |pre|, where[r.cie]).value;
    var post := SerializeFrom(rs[1..], va, |pre| + |mine|, Seen(where, r, |pre|)).value;
    assert SerializeFrom(rs, va, |pre|, where).value == mine + post;
    assert pre + (mine + post) == pre + mine + post;
    if r.Cie? {
      CieStep(r, va, pre, post, where);
    } else {
      FdeStep(r, va, pre, post, where);
    }
  }

  /** The reader's turn decides whether the first record comes back. */
  lemma FirstRead(data: seq<byte>, va: int, off: nat, where: seq<nat>, rs: seq<Record>)
    requires rs != [] && RecordSize(rs[0]) >= 4
    requires StepAt(data, va, off, where) == Ok(Next(rs[0], RecordSize(rs[0]) - 4))
    ensures ReadFrom(data, va, off, where) == Ok(rs) <==>
            ReadFrom(data, va, off + RecordSize(rs[0]), Seen(where, rs[0], off)) == Ok(rs[1..])
  {
    hide StepAt;
    PrependIs(rs[0], ReadFrom(data, va, off + RecordSize(rs[0]), Seen(where, rs[0], off)), rs);
  }

  lemma FirstNotRead(data: seq<byte>, va: int, off: nat, where: seq<nat>, rs: seq<Record>)
    requires rs != []
    requires var step := StepAt(data, va, off, where);
             step.Ok? && step.value.Next? ==> step.value.record != rs[0]
    ensures ReadFrom(data, va, off, where) != Ok(rs)
  {
    hide StepAt;
  }

  /** Reading, from `|pre|` on, what was printed there. */
  lemma {:induction false} ReadPrinted(rs: seq<Record>, va: int, pre: seq<byte>, where: seq<nat>, data: seq<byte>)
    requires Behind(where, |pre|)
    requires SerializeFrom(rs, va, |pre|, where).Ok?
    requires data == pre + SerializeFrom(rs, va, |pre|, where).value
    ensures ReadFrom(data, va, |pre|, where) == Ok(rs) <==> AllReadable(rs)
    decreases |rs|
  {
    hide StepAt, FdeBytes, Readable, AllReadable, SerializeFrom, ReadFrom, RecordSize;
    if rs == [] {
      Terminator(pre, va, where);
    } else {
      var mine := FirstPrinted(rs, va, pre, where);
      AllReadableSplit(rs);
      if Readable(rs[0]) {
        ReadableSize(rs[0]);
        BehindNext(where, |pre|, rs[0]);
        ReadPrinted(rs[1..], va, pre + mine, Seen(where, rs[0], |pre|), data);
        FirstRead(data, va, |pre|, where, rs);
      } else {
        FirstNotRead(data, va, |pre|, where, rs);
      }
    }
  }

  lemma Terminator(pre: seq<byte>, va: int, where: seq<nat>)
    ensures SerializeFrom([], va, |pre|, where) == Ok(Zeros(4))
    ensures ReadFrom(pre + Zeros(4), va, |pre|, where) == Ok([]) && AllReadable([])
  {
    var data := pre + Zeros(4);
    ZeroIsZeros();
    assert data[|pre|..|pre| + 4] == Zeros(4);
    U32OfLe32(data, |pre|, 0);
  }

  lemma ReadableSize(r: Record)
    requires Readable(r)
    ensures RecordSize(r) >= 10
  {
  }

  lemma AllReadableSplit(rs: seq<Record>)
    requires rs != []
    ensures AllReadable(rs) <==> Readable(rs[0]) && AllReadable(rs[1..])
  {
    assert forall i :: 1 <= i < |rs| ==> rs[i] == rs[1..][i - 1];
  }

  lemma PrependIs(r: Record, tail: Result<seq<Record>>, rs: seq<Record>)
    requires rs != [] && rs[0] == r
    ensures Prepend([r], tail) == Ok(rs) <==> tail == Ok(rs[1..])
  {
    assert [r] + rs[1..] == rs;
    if tail.Ok? {
      assert ([r] + tail.value)[1..] == tail.value;
    }
  }

  /** The parser undoes the printer, at every address, exactly on the lists of readable records. */
  lemma PrintedReadsBack(rs: seq<Record>, va: int)
    requires Serialize(rs, va).Ok?
    ensures Read(Serialize(rs, va).value, va) == Ok(rs) <==> AllReadable(rs)
  {
    ReadPrinted(rs, va, [], [], Serialize(rs, va).value);
  }

  /** The FDE's CIE comes earlier, and its fields fit at section offset `off`. */
  predicate Placed(r: Record, va: int, off: nat, cies: nat) {
    r.Fde? ==> r.cie < cies && FitsI32(r.start - (va + off + 8)) && FitsU32(r.length)
  }

  predicate AllPlaced(rs: seq<Record>, va: int, off: nat, cies: nat) {
    rs != [] ==>
      && Placed(rs[0], va, off, cies)
      && AllPlaced(rs[1..], va, off + RecordSize(rs[0]), cies + if rs[0].Cie? then 1 else 0)
  }

  /** In a section below 4 GiB, printing raises exactly when a CIE is not earlier or a field does not fit. */
  lemma {:induction false} PrintsWhenPlaced(rs: seq<Record>, va: int, off: nat, where: seq<nat>)
    requires (forall k :: 0 <= k < |where| ==> where[k] <= off) && off + SerializedSize(rs) <= TWO32
    ensures SerializeFrom(rs, va, off, where).Ok? <==> AllPlaced(rs, va, off, |where|)
  {
    hide FdeBytes;
    if rs != [] {
      if rs[0].Fde? && rs[0].cie < |where| {
        FdeBytesWhen(rs[0], va, off, where[rs[0].cie]);
      }
      PrintsWhenPlaced(rs[1..], va, off + RecordSize(rs[0]), Seen(where, rs[0], off));
    }
  }

  lemma FdeBytesWhen(r: Record, va: int, off: nat, cieOff: nat)
    requires r.Fde? && cieOff <= off && off + RecordSize(r) + 4 <= TWO32
    ensures FdeBytes(r, va, off, cieOff).Ok? <==> FitsI32(r.start - (va + off + 8)) && FitsU32(r.length)
  {
  }

  /** Every list of placed, readable records comes back from its own bytes, at every address. */
  lemma RoundTrip(rs: seq<Record>, va: int)
    requires AllReadable(rs) && SerializedSize(rs) <= TWO32
    ensures AllPlaced(rs, va, 0, 0) <==> Serialize(rs, va).Ok?
    ensures AllPlaced(rs, va, 0, 0) ==> Read(Serialize(rs, va).value, va) == Ok(rs)
  {
    PrintsWhenPlaced(rs, va, 0, []);
    if Serialize(rs, va).Ok? {
      PrintedReadsBack(rs, va);
    }
  }

  // --- printing what was read ----------------------------------------------

  /** A table from `off` on that ends with its terminator inside the section, each FDE at least as
      long as its fixed fields. */
  predicate Whole(data: seq<byte>, off: nat)
    decreases |data| - off
  {
    off + 4 <= |data| &&
    var n := U32(data, off);
    n == 0 || (
      && n != DWARF64 && n >= 4 && off + 4 + n <= |data|
      && (U32(data, off + 4) == 0 || n >= 12)
      && Whole(data, off + 4 + n))
  }

  /** Where the terminator is. */
  function End(data: seq<byte>, off: nat): (e: nat)
    requires Whole(data, off)
    ensures off <= e && e + 4 <= |data|
    decreases |data| - off
  {
    if U32(data, off) == 0 then off else End(data, off + 4 + U32(data, off))
  }

  /** The record a whole table gives at `off` prints as the bytes it was read from, and is readable. */
  lemma StepPrints(data: seq<byte>, addr: int, off: nat, cies: seq<nat>)
    requires Whole(data, off) && Behind(cies, off)
    requires StepAt(data, addr, off, cies).Ok? && StepAt(data, addr, off, cies).value.Next?
    ensures var step := StepAt(data, addr, off, cies).value;
            var next := off + 4 + step.n;
            && step.n == U32(data, off) && next <= |data| && Whole(data, next) && End(data, off) == End(data, next)
            && RecordSize(step.record) == 4 + step.n
            && Readable(step.record)
            && (if step.record.Cie? then step.record.raw == data[off..next]
                else step.record.cie < |cies| &&
                     FdeBytes(step.record, addr, off, cies[step.record.cie]) == Ok(data[off..next]))
  {
    hide ParseCie, FdeAt, FdeBytes, I32, U32, Readable;
    var step := StepAt(data, addr, off, cies).value;
    var n := U32(data, off);
    if U32(data, off + 4) != 0 {
      FdePrints(data, addr, off, n, U32(data, off + 4), cies[step.record.cie]);
      FdeWhole(data, addr, off, n, step.record);
    } else {
      CieWhole(data, off, n, step.record);
    }
  }

  lemma CieWhole(data: seq<byte>, off: nat, n: nat, r: Record)
    requires n >= 4 && off + 4 + n <= |data| && U32(data, off) == n != DWARF64 && U32(data, off + 4) == 0
    requires ParseCie(Slice(data, off, off + 4 + n)) == Ok(r)
    ensures r.Cie? && r.raw == data[off..off + 4 + n] && RecordSize(r) == 4 + n && Readable(r)
  {
    hide ParseCie;
    var s := data[off..off + 4 + n];
    assert data == data[..off] + s + data[off + 4 + n..];
    U32In(data[..off], s, data[off + 4 + n..], 0);
    U32In(data[..off], s, data[off + 4 + n..], 4);
  }

  lemma FdeWhole(data: seq<byte>, addr: int, off: nat, n: nat, r: Record)
    requires 12 <= n != DWARF64 && off + 4 + n <= |data| && U32(data, off) == n
    requires r.Fde? && FdeAt(data, addr, off) == Ok((r.start, r.length, r.rest))
    ensures RecordSize(r) == 4 + n && Readable(r)
  {
    hide U32, I32;
  }

  lemma FdePrints(data: seq<byte>, addr: int, off: nat, n: int, ident: int, cieOff: nat)
    requires n >= 12 && off + 4 + n <= |data| && U32(data, off) == n && U32(data, off + 4) == ident
    requires cieOff == off + 4 - ident
    ensures FdeAt(data, addr, off).Ok?
    ensures var f := FdeAt(data, addr, off).value;
            forall k :: FdeBytes(Fde(k, f.0, f.1, f.2), addr, off, cieOff) == Ok(data[off..off + 4 + n])
  {
    hide U32, I32, Le32, LeI32;
    var f := FdeAt(data, addr, off).value;
    var body := off + 4;
    Le32OfU32(data, off);
    Le32OfU32(data, off + 4);
    LeI32OfI32(data, off + 8);
    Le32OfU32(data, off + 12);
    assert |f.2| == n - 12;
    var parts := data[off..off + 4] + data[off + 4..off + 8] + data[off + 8..off + 12] + data[off + 12..off + 16] + data[off + 16..off + 4 + n];
    assert parts == data[off..off + 4 + n];
  }

  /** The printer undoes the parser on every whole table, and what was read is readable: an edit that
      changes nothing writes back the section's own bytes, up to and with its terminator. */
  lemma {:induction false} ReadPrintsBackFrom(data: seq<byte>, addr: int, off: nat, cies: seq<nat>)
    requires Whole(data, off) && Behind(cies, off)
    requires ReadFrom(data, addr, off, cies).Ok?
    ensures var rs := ReadFrom(data, addr, off, cies).value;
            && SerializeFrom(rs, addr, off, cies) == Ok(data[off..End(data, off) + 4])
            && AllReadable(rs)
    decreases |data| - off
  {
    hide StepAt, FdeBytes, Readable, AllReadable, RecordSize, SerializeFrom, ReadFrom, Whole, End, Prepend;
    var rs := ReadFrom(data, addr, off, cies).value;
    if rs == [] {
      EmptyPrints(data, addr, off, cies);
    } else {
      ReadSplits(data, addr, off, cies);
      StepPrints(data, addr, off, cies);
      var step := StepAt(data, addr, off, cies).value;
      var next := off + 4 + step.n;
      BehindNext(cies, off, rs[0]);
      ReadPrintsBackFrom(data, addr, next, Seen(cies, rs[0], off));
      AllReadableSplit(rs);
      OneMorePrints(rs, addr, off, cies, data, next, End(data, off) + 4);
    }
  }

  /** What was read, from its first record on. */
  lemma ReadSplits(data: seq<byte>, addr: int, off: nat, cies: seq<nat>)
    requires ReadFrom(data, addr, off, cies).Ok? && ReadFrom(data, addr, off, cies).value != []
    ensures var (step, rs) := (StepAt(data, addr, off, cies), ReadFrom(data, addr, off, cies).value);
            && step.Ok? && step.value.Next? && step.value.record == rs[0]
            && ReadFrom(data, addr, off + 4 + step.value.n, Seen(cies, rs[0], off)) == Ok(rs[1..])
  {
    hide StepAt;
    var (step, rs) := (StepAt(data, addr, off, cies).value, ReadFrom(data, addr, off, cies).value);
    PrependIs(step.record, ReadFrom(data, addr, off + 4 + step.n, Seen(cies, step.record, off)), rs);
  }

  lemma OneMorePrints(rs: seq<Record>, addr: int, off: nat, cies: seq<nat>, data: seq<byte>, next: nat, end: nat)
    requires rs != [] && off <= next <= end <= |data| && RecordSize(rs[0]) == next - off
    requires if rs[0].Cie? then rs[0].raw == data[off..next]
             else rs[0].cie < |cies| && FdeBytes(rs[0], addr, off, cies[rs[0].cie]) == Ok(data[off..next])
    requires SerializeFrom(rs[1..], addr, next, Seen(cies, rs[0], off)) == Ok(data[next..end])
    ensures SerializeFrom(rs, addr, off, cies) == Ok(data[off..end])
  {
    hide FdeBytes, RecordSize;
    assert data[off..next] + data[next..end] == data[off..end];
  }

  lemma EmptyPrints(data: seq<byte>, addr: int, off: nat, cies: seq<nat>)
    requires Whole(data, off) && ReadFrom(data, addr, off, cies) == Ok([])
    ensures End(data, off) == off && data[off..off + 4] == Zeros(4)
    ensures SerializeFrom([], addr, off, cies) == Ok(Zeros(4)) && AllReadable([])
  {
    hide ParseCie, FdeAt, OrdinalAt, ToLE;
    Le32OfU32(data, off);
    assert U32(data, off) == 0;
    ZeroIsZeros();
  }

  lemma ZeroIsZeros()
    ensures Le32(0) == Zeros(4)
  {
    assert ToLE(0, 1) == [0] && ToLE(0, 2) == [0, 0] && ToLE(0, 3) == [0, 0, 0];
  }

  lemma ReadPrintsBack(data: seq<byte>, addr: int)
    requires Whole(data, 0) && Read(data, addr).Ok?
    ensures Serialize(Read(data, addr).value, addr) == Ok(data[..End(data, 0) + 4])
    ensures AllReadable(Read(data, addr).value)
  {
    hide ReadFrom, SerializeFrom, Whole, End, AllReadable;
    ReadPrintsBackFrom(data, addr, 0, []);
    assert forall e :: 0 <= e <= |data| ==> data[0..e] == data[..e];
  }

  /** A table ends at its terminator, or where its bytes do: what stands behind the terminator does not matter,
      and neither does the terminator, if nothing is behind the records. */
  lemma {:induction false} TableEnds(data: seq<byte>, data': seq<byte>, addr: int, off: nat, cies: seq<nat>)
    requires Whole(data, off) && End(data, off) <= |data'| && data'[..End(data, off)] == data[..End(data, off)]
    requires End(data, off) + 4 <= |data'| ==> U32(data', End(data, off)) == 0
    ensures ReadFrom(data', addr, off, cies) == ReadFrom(data, addr, off, cies)
    decreases |data| - off
  {
    hide StepAt, Prepend;
    if U32(data, off) == 0 {
      EndTurn(data, addr, off, cies);
      if off + 4 <= |data'| { EndTurn(data', addr, off, cies); } else { ShortTurn(data', addr, off, cies); }
    } else {
      SameTurn(data, data', addr, off, cies);
      var step := StepAt(data, addr, off, cies);
      if step.Ok? {
        assert step.value.Next? && step.value.n == U32(data, off);
        TableEnds(data, data', addr, off + 4 + step.value.n, Seen(cies, step.value.record, off));
      }
    }
  }

  lemma EndTurn(data: seq<byte>, addr: int, off: nat, cies: seq<nat>)
    requires off + 4 <= |data| && U32(data, off) == 0
    ensures StepAt(data, addr, off, cies) == Ok(Done)
  {
  }

  lemma ShortTurn(data: seq<byte>, addr: int, off: nat, cies: seq<nat>)
    requires off + 4 > |data|
    ensures StepAt(data, addr, off, cies) == Ok(Done)
  {
  }

  /** The reader's turn looks at the record only. */
  lemma SameTurn(data: seq<byte>, data': seq<byte>, addr: int, off: nat, cies: seq<nat>)
    requires off + 4 <= |data| && U32(data, off) != 0 && U32(data, off) != DWARF64
    requires var n := U32(data, off);
             && 4 <= n && off + 4 + n <= |data| && off + 4 + n <= |data'| && (U32(data, off + 4) == 0 || n >= 12)
             && data'[..off + 4 + n] == data[..off + 4 + n]
    ensures StepAt(data', addr, off, cies) == StepAt(data, addr, off, cies)
    ensures StepAt(data, addr, off, cies).Ok? ==> StepAt(data, addr, off, cies).value == Next(StepAt(data, addr, off, cies).value.record, U32(data, off))
  {
    hide ParseCie, OrdinalAt, FromLE;
    var end := off + 4 + U32(data, off);
    forall lo, hi | 0 <= lo <= hi <= end ensures data'[lo..hi] == data[lo..hi] {
      assert data'[lo..hi] == data'[..end][lo..hi] && data[lo..hi] == data[..end][lo..hi];
    }
  }

  /** What the reader refuses, at any record: 64-bit DWARF, a length with no room for an identifier behind it, an
      identifier that points at no CIE before it, an FDE cut off in its fixed fields, a CIE that is not
      accepted. */
  lemma ReaderRefuses(data: seq<byte>, addr: int, off: nat, cies: seq<nat>)
    requires off + 4 <= |data| && U32(data, off) != 0
    ensures ReadFrom(data, addr, off, cies).Ok? ==>
              && U32(data, off) != 0xFFFF_FFFF && off + 8 <= |data|
              && var ident := U32(data, off + 4);
              && (ident != 0 ==> off + 4 - ident in cies && off + 16 <= |data|)
              && (ident == 0 ==> ParseCie(Slice(data, off, off + 4 + U32(data, off))).Ok?)
  {
    hide ParseCie, Slice;
  }

  /** A length read is a 32-bit field. */
  lemma {:induction false} ReadLengths(data: seq<byte>, addr: int, off: nat, cies: seq<nat>)
    requires ReadFrom(data, addr, off, cies).Ok?
    ensures var rs := ReadFrom(data, addr, off, cies).value;
            forall i :: 0 <= i < |rs| && rs[i].Fde? ==> FitsU32(rs[i].length)
    decreases |data| - off
  {
    hide StepAt, ReadFrom;
    var rs := ReadFrom(data, addr, off, cies).value;
    if rs != [] {
      ReadSplits(data, addr, off, cies);
      StepLength(data, addr, off, cies);
      ReadLengths(data, addr, off + 4 + StepAt(data, addr, off, cies).value.n, Seen(cies, rs[0], off));
      assert forall i :: 1 <= i < |rs| ==> rs[i] == rs[1..][i - 1];
    }
  }

  lemma StepLength(data: seq<byte>, addr: int, off: nat, cies: seq<nat>)
    requires StepAt(data, addr, off, cies).Ok? && StepAt(data, addr, off, cies).value.Next?
    ensures var r := StepAt(data, addr, off, cies).value.record; r.Fde? ==> FitsU32(r.length)
  {
    hide ParseCie, OrdinalAt, U32, I32;
  }
}
