/** `publish`: tag, push, draft, public, each an external step that can fail with or without having taken
    effect; over every sequence of runs, from any commits, of one tag. */
module ReleaseProtocol {
  import opened Bytes

  type Commit = nat

  type Name = string

  /** One run of the command, with what it just built; the files of a commit's release have fixed names. */
  datatype Run = Run(id: nat, head: Commit)

  /** Which run each file of a release came from. */
  type Assets = map<Name, Run>

  datatype Release = NoRelease | Draft(assets: Assets) | Published(assets: Assets, maker: Run)

  /** The tag in the checkout, the tag at the forge, and the release of that tag. */
  datatype World = World(tag: Option<Commit>, remote: Option<Commit>, release: Release)

  const NOTHING: World := World(None, None, NoRelease)

  /** How an external step goes: it works, or it fails, and then it may have happened all the same. */
  datatype Step = Works | Fails(done: bool)

  /** How putting the files up goes: it fails with some of them up and some of the old ones gone. */
  datatype Upload = AllUp | Partly(made: bool, up: set<Name>, gone: set<Name>)

  datatype Weather = Weather(clean: bool, known: bool, tag: Step, push: Step, upload: Upload, edit: Step)

  const FAIR: Weather := Weather(true, true, Works, Works, AllUp, Works)

  datatype Outcome = DidIt | Refused | Failed

  function FilesOf(names: set<Name>, r: Run): Assets { map n | n in names :: r }

  /** `gh release edit --draft=false`. */
  function Edit(w: World, r: Run, step: Step): (World, Outcome)
    requires w.release.Draft?
  {
    var public := w.(release := Published(w.release.assets, r));
    if step.Works? then (public, DidIt) else (if step.done then public else w, Failed)
  }

  /** `gh release upload --clobber` into the draft, or `gh release create --draft`. */
  function PutUp(w: World, r: Run, names: set<Name>, f: Weather): (World, Outcome) {
    match w.release
    case Published(_, _) => (w, Failed)
    case Draft(assets) =>
      if f.upload.AllUp? then Edit(w.(release := Draft(assets + FilesOf(names, r))), r, f.edit)
      else (w.(release := Draft((assets - f.upload.gone) + FilesOf(f.upload.up * names, r))), Failed)
    case NoRelease =>
      if f.upload.AllUp? then Edit(w.(release := Draft(FilesOf(names, r))), r, f.edit)
      else (if f.upload.made then w.(release := Draft(FilesOf(f.upload.up * names, r))) else w, Failed)
  }

  function PushTag(w: World, r: Run, names: set<Name>, f: Weather): (World, Outcome)
  {
    var pushed := w.(remote := w.tag);
    if f.push.Works? then PutUp(pushed, r, names, f) else (if f.push.done then pushed else w, Failed)
  }

  /** `publish`: the names its files have are those of the commit it runs at. */
  function Publish(w: World, r: Run, namesOf: Commit -> set<Name>, f: Weather): (World, Outcome) {
    if !f.clean then (w, Refused)
    else if w.tag.Some? then
      if w.tag.value != r.head || !f.known || w.release.Published? then (w, Refused)
      else PushTag(w, r, namesOf(r.head), f)
    else
      var tagged := w.(tag := Some(r.head));
      if f.tag.Works? then PushTag(tagged, r, namesOf(r.head), f) else (if f.tag.done then tagged else w, Failed)
  }

  // --- what every run keeps ------------------------------------------------

  /** All files of one release, and all from `r`. */
  predicate AllFrom(assets: Assets, names: set<Name>, r: Run) {
    assets.Keys == names && forall n :: n in assets ==> assets[n] == r
  }

  predicate Safe(w: World, namesOf: Commit -> set<Name>) {
    && (w.remote.Some? ==> w.remote == w.tag)
    && (!w.release.NoRelease? ==> w.tag.Some? && w.remote == w.tag && w.release.assets.Keys <= namesOf(w.tag.value))
    && (w.release.Published? ==> w.release.maker.head == w.tag.value && AllFrom(w.release.assets, namesOf(w.tag.value), w.release.maker))
  }

  /** Where a run refuses to begin: a changed work tree; or a tag at another commit, one whose release cannot
      be told, or one whose release is public. */
  predicate Refuses(w: World, r: Run, clean: bool, known: bool) {
    || !clean
    || (w.tag.Some? && (w.tag.value != r.head || !known || w.release.Published?))
  }

  /** One run, whatever fails in it. */
  lemma PublishKeeps(w: World, r: Run, namesOf: Commit -> set<Name>, f: Weather)
    requires Safe(w, namesOf)
    ensures var (w', o) := Publish(w, r, namesOf, f);
            && Safe(w', namesOf)
            && (w.release.Published? ==> w' == w && o != DidIt)
            && (w'.release.Published? && !w.release.Published? ==> w'.release.maker == r && f.clean && o != Refused)
            && (o == Refused <==> Refuses(w, r, f.clean, f.known))
            && (o == DidIt ==> w'.release.Published? && w'.release.maker == r)
            && (w.tag.Some? ==> w'.tag == w.tag)
            && (w.tag.Some? && w.tag.value != r.head ==> w' == w && o == Refused)
  {
  }

  /** Each outcome, exactly, and what each leaves: a refusal nothing; a step that failed without taking effect
      nothing from there on; a success the tag, the push and all the files. */
  lemma PublishOutcome(w: World, r: Run, namesOf: Commit -> set<Name>, f: Weather)
    requires Safe(w, namesOf)
    ensures var (w', o) := Publish(w, r, namesOf, f);
            var tagged := w.tag.Some? || f.tag.Works?;
            && (o == Refused <==> Refuses(w, r, f.clean, f.known))
            && (o == DidIt <==> !Refuses(w, r, f.clean, f.known) && tagged && f.push.Works? && f.upload.AllUp? && f.edit.Works?)
            && (o == Refused ==> w' == w)
            && (o == Failed && !tagged ==> w' == w.(tag := if f.tag.done then Some(r.head) else None))
            && (o == Failed && tagged && !f.push.Works? ==>
                  w' == w.(tag := Some(r.head), remote := if f.push.done then Some(r.head) else w.remote))
            && (o == Failed && tagged && f.push.Works? && !f.upload.AllUp? ==>
                  w'.tag == w'.remote == Some(r.head) && !w'.release.Published?)
            && (o == Failed && tagged && f.push.Works? && f.upload.AllUp? && !f.edit.done ==>
                  w'.release.Draft? && AllFrom(w'.release.assets, namesOf(r.head), r))
            && (o == DidIt ==> w'.tag == w'.remote == Some(r.head) && w'.release.Published?
                               && AllFrom(w'.release.assets, namesOf(r.head), r))
  {
    var names := namesOf(r.head);
    assert FilesOf(names, r).Keys == names;
    if w.release.Draft? {
      assert (w.release.assets + FilesOf(names, r)).Keys == (w.release.assets.Keys + names);
    }
  }

  /** What a failed upload leaves in a draft: of the names it was to put up, those that got there are this
      run's, and the others are what was there before or gone. */
  lemma UploadLeaves(w: World, r: Run, names: set<Name>, f: Weather, n: Name)
    requires w.release.Draft? && f.upload.Partly?
    ensures var (w', o) := PutUp(w, r, names, f);
            && o == Failed && w'.release.Draft?
            && (n in w'.release.assets <==> n in f.upload.up * names || (n in w.release.assets && n !in f.upload.gone))
            && (n in w'.release.assets ==> w'.release.assets[n] == if n in f.upload.up * names then r else w.release.assets[n])
  {
  }

  /** The commit a run has to be at: that of the tag, where there is one. */
  predicate CanFinish(w: World, r: Run) { w.tag.Some? ==> w.tag.value == r.head }

  /** From every safe state that is not public, a run in which nothing fails ends public, with its own files. */
  lemma FairRunPublishes(w: World, r: Run, namesOf: Commit -> set<Name>)
    requires Safe(w, namesOf) && !w.release.Published? && CanFinish(w, r)
    ensures var (w', o) := Publish(w, r, namesOf, FAIR);
            o == DidIt && w'.release.Published? && w'.release.maker == r && AllFrom(w'.release.assets, namesOf(r.head), r)
  {
    var names := namesOf(r.head);
    assert FilesOf(names, r).Keys == names;
    if w.release.Draft? {
      assert (w.release.assets + FilesOf(names, r)).Keys == names;
    }
  }

  /** The worlds of a sequence of runs. */
  function After(w: World, runs: seq<(Run, Weather)>, namesOf: Commit -> set<Name>): World {
    if runs == [] then w
    else
      var n := |runs| - 1;
      Publish(After(w, runs[..n], namesOf), runs[n].0, namesOf, runs[n].1).0
  }

  /** Over any runs, at any commits, whatever fails in each: public only with the tag pushed, every file of
      that commit's release there, and all of them from the one run, at that commit, that made it public. */
  lemma {:induction false} PublicIsWhole(runs: seq<(Run, Weather)>, namesOf: Commit -> set<Name>)
    ensures var w := After(NOTHING, runs, namesOf);
            && Safe(w, namesOf)
            && (w.release.Published? ==>
                  && w.remote == w.tag == Some(w.release.maker.head)
                  && AllFrom(w.release.assets, namesOf(w.release.maker.head), w.release.maker)
                  && exists i :: 0 <= i < |runs| && runs[i].0 == w.release.maker && runs[i].1.clean)
  {
    if runs != [] {
      var n := |runs| - 1;
      PublicIsWhole(runs[..n], namesOf);
      PublishKeeps(After(NOTHING, runs[..n], namesOf), runs[n].0, namesOf, runs[n].1);
      assert forall i :: 0 <= i < n ==> runs[..n][i] == runs[i];
    }
  }

  /** A public tag is never touched again. */
  lemma {:induction false} PublicIsFinal(w: World, runs: seq<(Run, Weather)>, namesOf: Commit -> set<Name>)
    requires Safe(w, namesOf) && w.release.Published?
    ensures After(w, runs, namesOf) == w
  {
    if runs != [] {
      var n := |runs| - 1;
      PublicIsFinal(w, runs[..n], namesOf);
      PublishKeeps(w, runs[n].0, namesOf, runs[n].1);
    }
  }

  /** From whatever a sequence of runs left unpublished, one more run at the tag's commit with nothing failing
      finishes it. */
  lemma AnotherRunFinishes(runs: seq<(Run, Weather)>, r: Run, namesOf: Commit -> set<Name>)
    requires var w := After(NOTHING, runs, namesOf); !w.release.Published? && CanFinish(w, r)
    ensures var w := After(NOTHING, runs + [(r, FAIR)], namesOf);
            w.release.Published? && w.release.maker == r && AllFrom(w.release.assets, namesOf(r.head), r)
  {
    PublicIsWhole(runs, namesOf);
    FairRunPublishes(After(NOTHING, runs, namesOf), r, namesOf);
    assert (runs + [(r, FAIR)])[..|runs|] == runs;
  }

  /** After a failed run the recovery text assures its reader that clients see nothing of it: right exactly
      when the last step did not fail after taking effect. */
  lemma RecoveryText(w: World, r: Run, namesOf: Commit -> set<Name>, f: Weather)
    requires Safe(w, namesOf) && Publish(w, r, namesOf, f).1 == Failed
    ensures Publish(w, r, namesOf, f).0.release.Published? <==>
            (w.tag.Some? || f.tag.Works?) && f.push.Works? && f.upload.AllUp? && f.edit == Fails(true)
  {
  }

  /** It can happen in the first run of all: everything works, and the last step is reported as failed. */
  lemma PublicThoughFailed(r: Run, namesOf: Commit -> set<Name>)
    ensures var (w, o) := Publish(NOTHING, r, namesOf, FAIR.(edit := Fails(true)));
            o == Failed && w.release == Published(FilesOf(namesOf(r.head), r), r)
  {
  }

  // --- the steps on the checkout and the forge -----------------------------

  class Forge {
    var tag: Option<Commit>
    var remote: Option<Commit>
    var release: Release

    ghost function State(): World
      reads this
    {
      World(tag, remote, release)
    }

    constructor ()
      ensures State() == NOTHING
    {
      tag, remote, release := None, None, NoRelease;
    }

    /** `check_existing_tag`: refused, or whether a draft is there. */
    method CheckExistingTag(r: Run, known: bool) returns (draft: Option<bool>)
      requires tag.Some?
      ensures draft.None? <==> tag.value != r.head || !known || release.Published?
      ensures draft.Some? ==> draft.value == release.Draft?
    {
      if tag.value != r.head { return None; }
      if !known { return None; }
      if release.Published? { return None; }
      return Some(release.Draft?);
    }

    method PublishTag(r: Run, namesOf: Commit -> set<Name>, f: Weather) returns (o: Outcome)
      requires Safe(State(), namesOf)
      modifies this
      ensures (State(), o) == Publish(old(State()), r, namesOf, f)
      ensures Safe(State(), namesOf)
    {
      PublishKeeps(State(), r, namesOf, f);
      if !f.clean { return Refused; }
      var found := tag.Some?;
      var draft := false;
      if found {
        var state := CheckExistingTag(r, f.known);
        if state.None? { return Refused; }
        draft := state.value;
      }
      var names := namesOf(r.head);
      if !found {
        if f.tag.Works? || f.tag.done { tag := Some(r.head); }
        if !f.tag.Works? { return Failed; }
      }
      if f.push.Works? || f.push.done { remote := tag; }
      if !f.push.Works? { return Failed; }
      if draft {
        if f.upload.AllUp? {
          release := Draft(release.assets + FilesOf(names, r));
        } else {
          release := Draft((release.assets - f.upload.gone) + FilesOf(f.upload.up * names, r));
          return Failed;
        }
      } else {
        if f.upload.AllUp? {
          release := Draft(FilesOf(names, r));
        } else {
          if f.upload.made { release := Draft(FilesOf(f.upload.up * names, r)); }
          return Failed;
        }
      }
      if f.edit.Works? || f.edit.done { release := Published(release.assets, r); }
      return if f.edit.Works? then DidIt else Failed;
    }
  }
}
