/** The rule on signing keys: which signers a release of which version may have, over every sequence of
    releases. */
module ReleaseKeys {
  import opened Bytes

  /** A version `X.Y.Z` or `X.Y.Z-suffix`; its tag is `v` and its text. */
  datatype Version = Version(major: nat, minor: nat, patch: nat, suffix: string)

  /** Only `vX.Y.Z` is a plain tag. */
  predicate Plain(v: Version) { v.suffix == "" }

  /** The order of the numbers; a suffix does not count. */
  predicate Below(a: Version, b: Version) {
    a.major < b.major || (a.major == b.major && (a.minor < b.minor || (a.minor == b.minor && a.patch < b.patch)))
  }

  /** The file with the built-in key at a tag: not there, not readable, or holding this text. */
  datatype KeyFile = NoFile | Unreadable | Holds(text: string)

  type Tags = map<Version, KeyFile>

  predicate HexChar(c: char) { '0' <= c <= '9' || 'a' <= c <= 'f' || 'A' <= c <= 'F' }

  function LowerChar(c: char): char { if 'A' <= c <= 'F' then c - 'A' + 'a' else c }

  function Lower(s: string): (r: string)
    ensures |r| == |s|
  {
    seq(|s|, i requires 0 <= i < |s| => LowerChar(s[i]))
  }

  /** 64 hex digits of either case. */
  predicate IsKey(s: string) { |s| == 64 && forall i :: 0 <= i < |s| ==> HexChar(s[i]) }

  /** What `public_key_of` gives: 64 hex digits in lower case. */
  predicate IsPublic(s: string) { IsKey(s) && forall i :: 0 <= i < |s| ==> !('A' <= s[i] <= 'F') }

  /** `key_at`, of a file that reads. */
  function KeyAt(f: KeyFile): Option<string> {
    if f.Holds? && IsKey(f.text) then Some(Lower(f.text)) else None
  }

  lemma PublicKeyAt(key: string)
    requires IsPublic(key)
    ensures KeyAt(Holds(key)) == Some(key)
  {
    assert Lower(key) == key;
  }

  /** The plain tags below a version. */
  function EarlierTags(tags: Tags, v: Version): set<Version> {
    set t | t in tags && Plain(t) && Below(t, v)
  }

  /** `keys_of_earlier_releases`: what the binaries of those tags will accept a signature of. */
  function EarlierKeys(tags: Tags, v: Version): set<string> {
    set t | t in EarlierTags(tags, v) && KeyAt(tags[t]).Some? :: KeyAt(tags[t]).value
  }

  /** The plain tags that are not below a version, its own aside. */
  function AboveTags(tags: Tags, v: Version): set<Version> {
    set t | t in tags && Plain(t) && !Below(t, v) && t != v
  }

  /** `why_not_publishable` finds nothing, and reading the earlier keys was not refused. */
  predicate Publishable(tags: Tags, v: Version, builtIn: string, signers: set<string>, strand: bool) {
    && builtIn in signers
    && AboveTags(tags, v) == {}
    && (forall t :: t in EarlierTags(tags, v) ==> !tags[t].Unreadable?)
    && (EarlierKeys(tags, v) <= signers || strand)
  }

  /** One attempt that got past its refusals: it leaves the tag, and when it completes, the release. */
  datatype Attempt = Attempt(version: Version, builtIn: string, signers: set<string>, strand: bool, completes: bool)

  datatype State = State(tags: Tags, published: set<Version>)

  /** Past every refusal: the gate; and an existing tag only at this commit, whose file holds this key, with no
      published release. */
  predicate Allowed(s: State, a: Attempt) {
    && (forall k :: k in a.signers ==> IsPublic(k))
    && Publishable(s.tags, a.version, a.builtIn, a.signers, a.strand)
    && (a.version in s.tags ==> s.tags[a.version] == Holds(a.builtIn) && a.version !in s.published)
  }

  function Apply(s: State, a: Attempt): State {
    State(s.tags[a.version := Holds(a.builtIn)], if a.completes then s.published + {a.version} else s.published)
  }

  function StateAfter(s: State, trace: seq<Attempt>): State {
    if trace == [] then s else Apply(StateAfter(s, trace[..|trace| - 1]), trace[|trace| - 1])
  }

  predicate IsTrace(s: State, trace: seq<Attempt>) {
    forall i :: 0 <= i < |trace| ==> Allowed(StateAfter(s, trace[..i]), trace[i])
  }

  // --- one gate ------------------------------------------------------------

  /** Of two plain versions one is below the other, or they are one; a higher number in front decides, whatever
      stands behind it. */
  lemma VersionOrder(a: Version, b: Version)
    requires Plain(a) && Plain(b)
    ensures Below(a, b) || Below(b, a) || a == b
    ensures !(Below(a, b) && Below(b, a)) && !Below(a, a)
    ensures forall c :: Below(a, b) && Below(b, c) ==> Below(a, c)
    ensures a.major < b.major ==> Below(a, b)
    ensures a.major == b.major && a.minor < b.minor ==> Below(a, b)
    ensures a.major == b.major && a.minor == b.minor && a.patch < b.patch ==> Below(a, b)
  {
  }

  function HexValue(c: char): nat
    requires HexChar(c)
  {
    if c <= '9' then c as int - '0' as int else if c <= 'F' then c as int - 'A' as int + 10 else c as int - 'a' as int + 10
  }

  /** The client reads a file as a key exactly when it holds 64 hex digits; the key is their value, spelt in
      lower case. */
  lemma KeyAtReads(f: KeyFile)
    ensures KeyAt(f).Some? <==> f.Holds? && |f.text| == 64 && forall i :: 0 <= i < 64 ==> HexChar(f.text[i])
    ensures KeyAt(f).Some? ==>
              && IsPublic(KeyAt(f).value)
              && forall i :: 0 <= i < 64 ==> HexValue(KeyAt(f).value[i]) == HexValue(f.text[i])
  {
  }

  /** When the gate opens: the release is signed by its own key, and every other plain tag is below it, its file
      could be looked at, and the key it holds signs too, or stranding its copies was asked for. */
  lemma GateExactly(tags: Tags, v: Version, builtIn: string, signers: set<string>, strand: bool)
    ensures Publishable(tags, v, builtIn, signers, strand) <==>
            && builtIn in signers
            && forall t :: t in tags && Plain(t) && t != v ==>
                 && Below(t, v) && !tags[t].Unreadable?
                 && (KeyAt(tags[t]).Some? && KeyAt(tags[t]).value !in signers ==> strand)
  {
    hide KeyAt;
    if Publishable(tags, v, builtIn, signers, strand) {
      forall t | t in tags && Plain(t) && t != v
        ensures Below(t, v) && !tags[t].Unreadable? && (KeyAt(tags[t]).Some? && KeyAt(tags[t]).value !in signers ==> strand)
      {
        assert t !in AboveTags(tags, v);
        assert t in EarlierTags(tags, v);
        assert KeyAt(tags[t]).Some? ==> KeyAt(tags[t]).value in EarlierKeys(tags, v);
      }
    } else if builtIn in signers {
      GateShut(tags, v, signers, strand);
    }
  }

  lemma GateShut(tags: Tags, v: Version, signers: set<string>, strand: bool)
    requires AboveTags(tags, v) != {} || (exists t :: t in EarlierTags(tags, v) && tags[t].Unreadable?)
             || !(EarlierKeys(tags, v) <= signers || strand)
    ensures exists t :: t in tags && Plain(t) && t != v
              && (!Below(t, v) || tags[t].Unreadable? || (KeyAt(tags[t]).Some? && KeyAt(tags[t]).value !in signers && !strand))
  {
    hide KeyAt;
    if AboveTags(tags, v) != {} {
      var t :| t in AboveTags(tags, v);
    } else if t :| t in EarlierTags(tags, v) && tags[t].Unreadable? {
      assert t != v;
    } else {
      var k :| k in EarlierKeys(tags, v) && k !in signers;
      var t :| t in EarlierTags(tags, v) && KeyAt(tags[t]).Some? && KeyAt(tags[t]).value == k;
      assert t != v;
    }
  }

  /** What passing the gate means for every plain tag there is. */
  lemma GateMeans(s: State, a: Attempt, t: Version)
    requires Allowed(s, a) && !a.strand && t in s.tags && Plain(t)
    ensures t == a.version || Below(t, a.version)
    ensures KeyAt(s.tags[t]).Some? ==> KeyAt(s.tags[t]).value in a.signers
  {
    assert t !in AboveTags(s.tags, a.version);
    if t == a.version {
      PublicKeyAt(a.builtIn);
    } else {
      assert t in EarlierTags(s.tags, a.version);
      if KeyAt(s.tags[t]).Some? {
        assert KeyAt(s.tags[t]).value in EarlierKeys(s.tags, a.version);
      }
    }
  }

  /** A tag stays, and what its binary holds stays; so does what was published. */
  lemma {:induction false} TagsStay(s: State, trace: seq<Attempt>, t: Version)
    requires IsTrace(s, trace) && t in s.tags
    ensures t in StateAfter(s, trace).tags && StateAfter(s, trace).tags[t] == s.tags[t]
    ensures s.published <= StateAfter(s, trace).published
  {
    hide Publishable, IsPublic, IsTrace;
    if trace != [] {
      var n := |trace| - 1;
      Shorter(s, trace, n);
      AllowedAt(s, trace, n);
      TagsStay(s, trace[..n], t);
    }
  }

  lemma Shorter(s: State, trace: seq<Attempt>, n: nat)
    requires IsTrace(s, trace) && n <= |trace|
    ensures IsTrace(s, trace[..n])
  {
    hide Allowed, StateAfter;
    forall i | 0 <= i < n ensures Allowed(StateAfter(s, trace[..n][..i]), trace[..n][i]) {
      assert trace[..n][..i] == trace[..i];
    }
  }

  /** What an attempt left is there for every later one. */
  lemma {:induction false} LeftBehind(s: State, trace: seq<Attempt>, i: nat)
    requires IsTrace(s, trace) && i < |trace|
    ensures var (later, a) := (StateAfter(s, trace), trace[i]);
            && a.version in later.tags && later.tags[a.version] == Holds(a.builtIn)
            && (a.completes ==> a.version in later.published)
  {
    hide Publishable, IsPublic, IsTrace;
    var n := |trace| - 1;
    Shorter(s, trace, n);
    AllowedAt(s, trace, n);
    if i < n {
      LeftBehind(s, trace[..n], i);
      assert trace[..n][i] == trace[i];
    }
  }

  lemma AllowedAt(s: State, trace: seq<Attempt>, i: nat)
    requires IsTrace(s, trace) && i < |trace|
    ensures Allowed(StateAfter(s, trace[..i]), trace[i])
  {
    hide Allowed, StateAfter;
  }

  // --- every sequence of releases ------------------------------------------

  /** Over every sequence of attempts at plain versions, from any tags, none told to strand older copies: each
      release is signed by its own built-in key, by the built-in key of every earlier attempt, and by every
      readable key of the tags there were; and versions never fall, and rise above every completed release. */
  lemma KeysCarryOver(s: State, trace: seq<Attempt>, i: nat, j: nat)
    requires IsTrace(s, trace) && i < j < |trace|
    requires forall k :: 0 <= k < |trace| ==> Plain(trace[k].version) && !trace[k].strand
    ensures trace[j].builtIn in trace[j].signers
    ensures trace[i].builtIn in trace[j].signers
    ensures trace[i].version == trace[j].version || Below(trace[i].version, trace[j].version)
    ensures trace[i].completes ==> Below(trace[i].version, trace[j].version)
  {
    hide StateAfter;
    var before := trace[..j];
    var now := StateAfter(s, before);
    Shorter(s, trace, j);
    LeftBehind(s, before, i);
    assert before[i] == trace[i];
    assert Allowed(now, trace[j]);
    GateMeans(now, trace[j], trace[i].version);
    assert Allowed(StateAfter(s, trace[..i]), trace[i]);
    PublicKeyAt(trace[i].builtIn);
  }

  lemma OldKeysCarryOver(s: State, trace: seq<Attempt>, j: nat, t: Version)
    requires IsTrace(s, trace) && j < |trace| && !trace[j].strand
    requires t in s.tags && Plain(t)
    ensures t == trace[j].version || Below(t, trace[j].version)
    ensures KeyAt(s.tags[t]).Some? ==> KeyAt(s.tags[t]).value in trace[j].signers
  {
    hide StateAfter;
    Shorter(s, trace, j);
    TagsStay(s, trace[..j], t);
    GateMeans(StateAfter(s, trace[..j]), trace[j], t);
  }

  // --- what the gate does not see ------------------------------------------

  /** A suffixed tag of another version changes nothing: the rule holds for plain versions only. */
  lemma SuffixedTagsAreUnseen(tags: Tags, t: Version, f: KeyFile, v: Version, builtIn: string, signers: set<string>, strand: bool)
    requires !Plain(t)
    ensures Publishable(tags[t := f], v, builtIn, signers, strand) <==> Publishable(tags, v, builtIn, signers, strand)
  {
    var more := tags[t := f];
    assert EarlierTags(more, v) == EarlierTags(tags, v);
    assert AboveTags(more, v) == AboveTags(tags, v);
    assert EarlierKeys(more, v) == EarlierKeys(tags, v);
  }

  /** So after a published 2.0.0-rc1 with one key, 1.9.0 signed by another key alone goes out: below it, and
      refused by every copy of it. */
  lemma SuffixedReleaseStranded(one: string, other: string)
    requires IsPublic(one) && IsPublic(other) && one != other
    ensures var trace := [Attempt(Version(2, 0, 0, "-rc1"), one, {one}, false, true),
                          Attempt(Version(1, 9, 0, ""), other, {other}, false, true)];
            && IsTrace(State(map[], {}), trace)
            && Below(trace[1].version, trace[0].version) && trace[0].builtIn !in trace[1].signers
  {
    var (first, second) := (Attempt(Version(2, 0, 0, "-rc1"), one, {one}, false, true),
                            Attempt(Version(1, 9, 0, ""), other, {other}, false, true));
    var trace := [first, second];
    var s := State(map[], {});
    assert AboveTags(s.tags, first.version) == {} && EarlierTags(s.tags, first.version) == {};
    assert EarlierKeys(s.tags, first.version) == {};
    assert trace[..0] == [] && StateAfter(s, []) == s && Allowed(s, first);
    var s1 := Apply(s, first);
    assert trace[..1] == [first] && [first][..0] == [] && StateAfter(s, [first]) == s1;
    assert AboveTags(s1.tags, second.version) == {} && EarlierTags(s1.tags, second.version) == {};
    assert EarlierKeys(s1.tags, second.version) == {};
    assert Allowed(s1, second);
  }
}
