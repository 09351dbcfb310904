/** rename-video.py: renames the camera videos of a directory, dropping the
    `VID_YYYYMMDD_` date prefix from each `VID_*.mp4` file name. A directory
    is a map from file names to file contents (a content is a number that
    stands for the bytes of one video). */
module RenameVideo {
  import opened Text

  type Files = map<string, nat>

  /** The name starts with `VID_`, eight digits and `_` (`^VID_\d{8}_`),
      read character by character. */
  predicate HasDatePrefix(name: string) {
    && |name| >= 13
    && name[0] == 'V' && name[1] == 'I' && name[2] == 'D' && name[3] == '_'
    && (forall i :: 4 <= i < 12 ==> IsDigit(name[i]))
    && name[12] == '_'
  }

  /** `re.sub(r'^VID_\d{8}_', '', name)`: the anchored pattern matches at
      most once, at the start, so exactly those 13 characters go or nothing
      changes. */
  function StripPrefix(name: string): (r: string)
    ensures r != name <==> HasDatePrefix(name)
    ensures r != name ==> |r| == |name| - 13
  {
    if HasDatePrefix(name) then name[13..] else name
  }

  /** The new name is the end of the old one, in the same directory. */
  lemma StripPrefixSuffix(name: string)
    ensures |StripPrefix(name)| <= |name|
    ensures StripPrefix(name) == name[|name| - |StripPrefix(name)|..]
  {
  }

  /** A dated name loses exactly its date prefix. */
  lemma StripDated(date: string, rest: string)
    requires |date| == 8 && IsDigits(date)
    ensures HasDatePrefix("VID_" + date + "_" + rest)
    ensures StripPrefix("VID_" + date + "_" + rest) == rest
  {
    var name := "VID_" + date + "_" + rest;
    assert forall i :: 4 <= i < 12 ==> name[i] == date[i - 4];
    assert name[13..] == rest;
  }

  /** Only the first of two date prefixes goes. */
  lemma StripOnce(date: string, date': string, rest: string)
    requires |date| == 8 && IsDigits(date) && |date'| == 8 && IsDigits(date')
    ensures StripPrefix("VID_" + date + "_" + "VID_" + date' + "_" + rest) == "VID_" + date' + "_" + rest
  {
    StripDated(date, "VID_" + date' + "_" + rest);
    assert "VID_" + date + "_" + "VID_" + date' + "_" + rest == "VID_" + date + "_" + ("VID_" + date' + "_" + rest);
  }

  /** The glob `VID_*.mp4`: the name starts with `VID_` and ends with `.mp4`. */
  predicate IsVideo(name: string) {
    |name| >= 8 && name[..4] == "VID_" && name[|name| - 4..] == ".mp4"
  }

  /** The matching names of a directory listing, in listing order. */
  function Videos(listing: seq<string>): (r: seq<string>)
    ensures forall n :: n in r <==> n in listing && IsVideo(n)
    ensures |r| <= |listing|
  {
    if listing == [] then []
    else VideoHead(listing[0]) + Videos(listing[1..])
  }

  /** What the glob keeps of a single name. */
  function VideoHead(name: string): seq<string> {
    if IsVideo(name) then [name] else []
  }

  /** The glob keeps the listing's order: the videos of two listings one
      after the other are the videos of each, joined. */
  lemma {:induction false} VideosAppend(a: seq<string>, b: seq<string>)
    ensures Videos(a + b) == Videos(a) + Videos(b)
  {
    if a == [] {
      assert a + b == b;
    } else {
      assert (a + b)[0] == a[0] && (a + b)[1..] == a[1..] + b;
      VideosAppend(a[1..], b);
      JoinAssociates(VideoHead(a[0]), Videos(a[1..]), Videos(b));
    }
  }

  /** A single name is kept exactly when it is a video name. */
  lemma VideosSingle(name: string)
    ensures Videos([name]) == if IsVideo(name) then [name] else []
  {
    assert [name][1..] == [];
  }

  /** What happens to one file: it already has its short name, it is renamed,
      or the rename fails (the file is gone, or the system refuses). */
  datatype Outcome = Unchanged(name: string) | Renamed(from: string, to: string) | Failed(name: string)

  /** How a run ends: no matching file at all, or one outcome per file. */
  datatype Report = NoVideos | Done(outcomes: seq<Outcome>)

  /** `os.rename`: the file takes its new name and a file already under
      that name is replaced. */
  function Rename(files: Files, from: string, to: string): Files
    requires from in files
  {
    (files - {from})[to := files[from]]
  }

  /** The outcome of one round of the loop; `fails` says which renames the
      system refuses. */
  function StepOutcome(files: Files, name: string, fails: string -> bool): Outcome {
    var newName := StripPrefix(name);
    if newName == name then Unchanged(name)
    else if name !in files || fails(name) then Failed(name)
    else Renamed(name, newName)
  }

  /** The directory after one round of the loop. */
  function StepFiles(files: Files, name: string, fails: string -> bool): Files {
    if StepOutcome(files, name, fails).Renamed? then Rename(files, name, StripPrefix(name)) else files
  }

  /** The directory after the loop over the matching names, in order. */
  function FilesAfter(files: Files, order: seq<string>, fails: string -> bool): Files {
    if order == [] then files
    else StepFiles(FilesAfter(files, order[..|order| - 1], fails), order[|order| - 1], fails)
  }

  /** The outcomes of the loop over the matching names, in order. */
  function Outcomes(files: Files, order: seq<string>, fails: string -> bool): seq<Outcome> {
    if order == [] then []
    else
      var front := order[..|order| - 1];
      Outcomes(files, front, fails) + [StepOutcome(FilesAfter(files, front, fails), order[|order| - 1], fails)]
  }

  predicate Distinct(s: seq<string>) {
    forall i, j :: 0 <= i < j < |s| ==> s[i] != s[j]
  }

  class Directory {
    var files: Files

    constructor (files: Files)
      ensures this.files == files
    {
      this.files := files;
    }

    /** `rename_video_files`: `listing` is the order in which the directory
        lists its entries, each once. With no matching file it returns at
        once; otherwise the matching names, taken before any rename, are
        visited in turn: a name without the prefix is skipped, any other is
        renamed to its short name, and a failed rename is reported and
        passed over. */
    method RenameVideoFiles(listing: seq<string>, fails: string -> bool) returns (report: Report)
      requires Distinct(listing) && forall n :: n in listing <==> n in files
      modifies this
      ensures report.NoVideos? <==> Videos(listing) == []
      ensures files == FilesAfter(old(files), Videos(listing), fails)
      ensures report.Done? ==> report.outcomes == Outcomes(old(files), Videos(listing), fails)
    {
      var videoFiles := Videos(listing);
      if videoFiles == [] {
        return NoVideos;
      }
      var initial := files;
      var current, outcomes := files, [];
      var k := 0;
      while k < |videoFiles|
        invariant 0 <= k <= |videoFiles|
        invariant current == FilesAfter(initial, videoFiles[..k], fails)
        invariant outcomes == Outcomes(initial, videoFiles[..k], fails)
      {
        AfterPrefix(initial, videoFiles, k, fails);
        var outcome;
        current, outcome := RenameOne(current, videoFiles[k], fails);
        outcomes := outcomes + [outcome];
        k := k + 1;
      }
      assert videoFiles[..|videoFiles|] == videoFiles;
      files := current;
      return Done(outcomes);
    }
  }

  /** One round of the loop: skip a name without the prefix, otherwise
      rename the file to its short name unless the rename fails. */
  method RenameOne(current: Files, oldName: string, fails: string -> bool) returns (next: Files, outcome: Outcome)
    ensures outcome == StepOutcome(current, oldName, fails)
    ensures next == StepFiles(current, oldName, fails)
  {
    var newName := StripPrefix(oldName);
    next := current;
    if newName == oldName {
      outcome := Unchanged(oldName);
    } else if oldName !in current || fails(oldName) {
      outcome := Failed(oldName);
    } else {
      next := (current - {oldName})[newName := current[oldName]];
      outcome := Renamed(oldName, newName);
    }
  }

  /** What the outcome of a name says about it: a name that stripping
      leaves as it is stays alone, and any other is renamed to its stripped
      name or reported as failed. */
  predicate FollowsName(o: Outcome, name: string) {
    && (o.Unchanged? <==> StripPrefix(name) == name)
    && (o.Unchanged? ==> o.name == name)
    && (o.Failed? ==> o.name == name)
    && (o.Renamed? ==> o.from == name && o.to == StripPrefix(name))
  }

  lemma StepFollowsName(files: Files, name: string, fails: string -> bool)
    ensures FollowsName(StepOutcome(files, name, fails), name)
  {
  }

  /** One outcome per matching name, in order, each following its name. */
  lemma {:induction false} OutcomesFollowNames(files: Files, order: seq<string>, fails: string -> bool)
    ensures var outcomes := Outcomes(files, order, fails);
      |outcomes| == |order| && forall i :: 0 <= i < |order| ==> FollowsName(outcomes[i], order[i])
  {
    if order != [] {
      var front := order[..|order| - 1];
      OutcomesFollowNames(files, front, fails);
      var earlier := Outcomes(files, front, fails);
      var last := StepOutcome(FilesAfter(files, front, fails), order[|order| - 1], fails);
      StepFollowsName(FilesAfter(files, front, fails), order[|order| - 1], fails);
      var outcomes := Outcomes(files, order, fails);
      assert outcomes == earlier + [last];
      forall i | 0 <= i < |order| ensures FollowsName(outcomes[i], order[i]) {
        if i < |front| {
          assert outcomes[i] == earlier[i] && order[i] == front[i];
        }
      }
    }
  }

  /** A directory whose matching names all lack the prefix is left as it is. */
  lemma {:induction false} NothingToStrip(files: Files, order: seq<string>, fails: string -> bool)
    requires forall i :: 0 <= i < |order| ==> !HasDatePrefix(order[i])
    ensures FilesAfter(files, order, fails) == files
  {
    if order != [] {
      NothingToStrip(files, order[..|order| - 1], fails);
    }
  }

  /** The loop over the first `k + 1` names is the loop over the first `k`
      followed by the round of name `k`. */
  lemma AfterPrefix(files: Files, order: seq<string>, k: nat, fails: string -> bool)
    requires k < |order|
    ensures FilesAfter(files, order[..k + 1], fails) == StepFiles(FilesAfter(files, order[..k], fails), order[k], fails)
    ensures Outcomes(files, order[..k + 1], fails)
      == Outcomes(files, order[..k], fails) + [StepOutcome(FilesAfter(files, order[..k], fails), order[k], fails)]
  {
    assert order[..k + 1][..k] == order[..k];
  }

  /** No rename is refused by the system. */
  function Never(name: string): bool {
    false
  }

  /** The loop after one more name is the step of that name after the loop. */
  lemma FilesAfterSnoc(files: Files, order: seq<string>, name: string, fails: string -> bool)
    ensures FilesAfter(files, order + [name], fails) == StepFiles(FilesAfter(files, order, fails), name, fails)
  {
    assert (order + [name])[..|order|] == order;
  }

  /** Two videos shot on different days whose names agree after the date
      (same time and counter) strip to the same short name; the second
      rename replaces the first video, so one of the two is lost. For
      instance `VID_20250101_1.mp4` and `VID_20250102_1.mp4` both become
      `1.mp4`. */
  lemma CollidingNamesLoseVideo(date: string, date': string, rest: string, v: nat, v': nat)
    requires |date| == 8 && IsDigits(date) && |date'| == 8 && IsDigits(date')
    requires date != date' && v != v'
    ensures var a, b := "VID_" + date + "_" + rest, "VID_" + date' + "_" + rest;
      var files := map[a := v, b := v'];
      var after := FilesAfter(files, [a, b], Never);
      && after == map[rest := v']
      && |after| < |files|
      && v in files.Values && v !in after.Values
  {
    var a, b := "VID_" + date + "_" + rest, "VID_" + date' + "_" + rest;
    StripDated(date, rest);
    StripDated(date', rest);
    DatedNamesDiffer(date, date', rest);
    SecondRenameReplaces(a, b, rest, v, v');
    assert map[a := v, b := v'][a] == v;
    assert map[rest := v'].Values == {v'};
  }

  /** The two dated names and their common short name are three names. */
  lemma DatedNamesDiffer(date: string, date': string, rest: string)
    requires |date| == 8 && |date'| == 8 && date != date'
    ensures var a, b := "VID_" + date + "_" + rest, "VID_" + date' + "_" + rest;
      a != b && rest != a && rest != b
  {
    var a, b := "VID_" + date + "_" + rest, "VID_" + date' + "_" + rest;
    assert a[4..12] == date && b[4..12] == date';
  }

  /** Two names that strip to the same third name: renaming both leaves
      one file under the third name, holding the second one's content. */
  lemma SecondRenameReplaces(a: string, b: string, c: string, v: nat, v': nat)
    requires a != b && c != a && c != b
    requires StripPrefix(a) == c && StripPrefix(b) == c
    ensures FilesAfter(map[a := v, b := v'], [a, b], Never) == map[c := v']
    ensures |map[a := v, b := v']| == 2 && |map[c := v']| == 1
  {
    var files := map[a := v, b := v'];
    var first := map[b := v', c := v];
    TwoRounds(files, a, b, Never);
    RenameStep(files, a, c);
    RenameFirst(a, b, c, v, v');
    RenameStep(first, b, c);
    RenameSecond(b, c, v, v');
    assert files.Keys == {a, b};
  }

  /** The loop over two names is the round of the second after the round
      of the first. */
  lemma TwoRounds(files: Files, a: string, b: string, fails: string -> bool)
    ensures FilesAfter(files, [a, b], fails) == StepFiles(StepFiles(files, a, fails), b, fails)
  {
    FilesAfterSnoc(files, [], a, fails);
    FilesAfterSnoc(files, [a], b, fails);
    assert [] + [a] == [a] && [a] + [b] == [a, b];
  }

  /** A present file with the prefix is renamed when nothing fails. */
  lemma RenameStep(files: Files, name: string, short: string)
    requires name in files && StripPrefix(name) == short && short != name
    ensures StepFiles(files, name, Never) == Rename(files, name, short)
  {
  }

  lemma RenameFirst(a: string, b: string, c: string, v: nat, v': nat)
    requires a != b && c != a && c != b
    ensures Rename(map[a := v, b := v'], a, c) == map[b := v', c := v]
  {
    var r := Rename(map[a := v, b := v'], a, c);
    assert r.Keys == {b, c};
  }

  lemma RenameSecond(b: string, c: string, v: nat, v': nat)
    requires c != b
    ensures Rename(map[b := v', c := v], b, c) == map[c := v']
  {
    var r := Rename(map[b := v', c := v], b, c);
    assert r.Keys == {c};
  }

  /** The round that keeps every video: a rename onto a name already in use
      is refused and reported, as an existing target makes `rename` fail on
      systems that do not replace files. */
  function SafeStepOutcome(files: Files, name: string, fails: string -> bool): Outcome {
    var newName := StripPrefix(name);
    if newName == name then Unchanged(name)
    else if name !in files || newName in files || fails(name) then Failed(name)
    else Renamed(name, newName)
  }

  function SafeStepFiles(files: Files, name: string, fails: string -> bool): Files {
    if SafeStepOutcome(files, name, fails).Renamed? then Rename(files, name, StripPrefix(name)) else files
  }

  function SafeFilesAfter(files: Files, order: seq<string>, fails: string -> bool): Files {
    if order == [] then files
    else SafeStepFiles(SafeFilesAfter(files, order[..|order| - 1], fails), order[|order| - 1], fails)
  }

  /** A rename onto an unused name keeps the number of files and their contents. */
  lemma RenameKeeps(files: Files, from: string, to: string)
    requires from in files && to !in files
    ensures |Rename(files, from, to)| == |files|
    ensures forall v :: v in Rename(files, from, to).Values <==> v in files.Values
  {
    var rest := files - {from};
    assert rest.Keys == files.Keys - {from};
    assert |rest.Keys| == |files.Keys| - 1;
    assert Rename(files, from, to).Keys == rest.Keys + {to};
    forall v | v in files.Values ensures v in Rename(files, from, to).Values {
      var n :| n in files && files[n] == v;
      if n == from {
        assert Rename(files, from, to)[to] == v;
      } else {
        assert Rename(files, from, to)[n] == v;
      }
    }
  }

  /** With existing names refused, every video survives the run under some
      name, and the directory holds as many files as before. */
  lemma {:induction false} SafeKeepsVideos(files: Files, order: seq<string>, fails: string -> bool)
    ensures var after := SafeFilesAfter(files, order, fails);
      |after| == |files| && forall v :: v in after.Values <==> v in files.Values
  {
    if order != [] {
      var earlier := SafeFilesAfter(files, order[..|order| - 1], fails);
      SafeKeepsVideos(files, order[..|order| - 1], fails);
      var name := order[|order| - 1];
      var newName := StripPrefix(name);
      if newName != name && name in earlier && newName !in earlier && !fails(name) {
        RenameKeeps(earlier, name, newName);
      }
    }
  }

  /** The refusal changes nothing when no short name is taken: the safe run
      and the plain one then agree. */
  lemma {:induction false} SafeAgreesWithoutClashes(files: Files, order: seq<string>, fails: string -> bool)
    requires forall i :: 0 <= i < |order| ==>
      (StripPrefix(order[i]) == order[i] || StripPrefix(order[i]) !in FilesAfter(files, order[..i], fails))
    ensures SafeFilesAfter(files, order, fails) == FilesAfter(files, order, fails)
  {
    if order != [] {
      var front := order[..|order| - 1];
      forall i | 0 <= i < |front|
        ensures StripPrefix(front[i]) == front[i] || StripPrefix(front[i]) !in FilesAfter(files, front[..i], fails)
      {
        assert front[..i] == order[..i];
      }
      SafeAgreesWithoutClashes(files, front, fails);
    }
  }
}
