/**
 * What the two rclone download scripts share: release assets, the effects
 * they have on the file system and the process (recorded as actions), the
 * first-match lookup and the download-then-chmod step.
 *
 * HTTP requests and file writes are not performed: a download is an action,
 * and the set of URLs whose download fails is a parameter.
 */
module ReleaseAssets {
  import opened Wrappers

  /** One entry of the release's `assets` array: its `name` and `browser_download_url`. */
  datatype Asset = Asset(name: string, url: string)

  /** `0o755`. */
  const Mode755: int := 493

  const Exe: string := ".exe"

  /** Effects on the target directory (files are named relative to it) and on the process. */
  datatype Action =
    | CreateDir                              // mkdirSync(targetDir, { recursive: true })
    | Download(url: string, file: string)    // downloadFile(url, targetDir/file)
    | Unlink(file: string)                   // the clean-up after a failed download
    | Chmod(file: string, mode: int)         // chmodSync(targetDir/file, mode)
    | Exit(code: int)                        // process.exit(code)

  /** The target directory is created only when it does not exist yet. */
  function MakeTargetDir(dirExists: bool): seq<Action> {
    if dirExists then [] else [CreateDir]
  }

  predicate EndsWith(s: string, suffix: string) {
    |suffix| <= |s| && s[|s| - |suffix|..] == suffix
  }

  /** Appending a word at least as long as the suffix decides alone whether the suffix ends the text. */
  lemma EndsWithAppend(s: string, t: string, suffix: string)
    requires |suffix| <= |t|
    ensures EndsWith(s + t, suffix) <==> EndsWith(t, suffix)
  {
    assert (s + t)[|s + t| - |suffix|..] == t[|t| - |suffix|..];
  }

  // ---------------------------------------------------------------------
  // `releaseInfo.assets.filter(asset => asset.name === name)[0]`

  /** The assets whose name is exactly `name`, in order (the `filter`). */
  function Matching(assets: seq<Asset>, name: string): (r: seq<Asset>)
    ensures |r| <= |assets|
  {
    if assets == [] then []
    else (if assets[0].name == name then [assets[0]] else []) + Matching(assets[1..], name)
  }

  /** The first asset named `name`, found by a scan that stops at the first match. */
  function FirstNamed(assets: seq<Asset>, name: string): Option<Asset> {
    if assets == [] then None
    else if assets[0].name == name then Some(assets[0])
    else FirstNamed(assets[1..], name)
  }

  /**
   * The scan agrees with taking the head of the filtered list: nothing is
   * found exactly when no asset has that name, and what is found is the
   * first asset that has it.
   */
  lemma {:induction false} FirstNamedIsFilterHead(assets: seq<Asset>, name: string)
    ensures var m := Matching(assets, name);
            && (FirstNamed(assets, name).None? <==> m == [])
            && (m != [] ==> FirstNamed(assets, name) == Some(m[0]))
            && (m == [] <==> forall a :: a in assets ==> a.name != name)
  {
    if assets != [] {
      FirstNamedIsFilterHead(assets[1..], name);
      assert forall a :: a in assets ==> a == assets[0] || a in assets[1..];
    }
  }

  /** What is found has the name asked for, is one of the assets, and no earlier asset has that name. */
  lemma {:induction false} FirstNamedIsFirst(assets: seq<Asset>, name: string) returns (k: nat)
    requires FirstNamed(assets, name).Some?
    ensures k < |assets| && assets[k] == FirstNamed(assets, name).value
    ensures assets[k].name == name
    ensures forall j :: 0 <= j < k ==> assets[j].name != name
  {
    if assets[0].name == name {
      k := 0;
    } else {
      var k' := FirstNamedIsFirst(assets[1..], name);
      k := k' + 1;
      forall j | 0 <= j < k ensures assets[j].name != name {
        if j > 0 { assert assets[j] == assets[1..][j - 1]; }
      }
    }
  }

  // ---------------------------------------------------------------------
  // One download, and a sequence of them that stops at the first failure

  /** The last action is an exit: nothing runs after it. */
  predicate Stops(actions: seq<Action>) {
    actions != [] && actions[|actions| - 1].Exit?
  }

  /** An exit, if there is one, is the last action. */
  predicate ExitsLast(actions: seq<Action>) {
    forall k :: 0 <= k < |actions| - 1 ==> !actions[k].Exit?
  }

  /**
   * `downloadFile(url, file)` and, when it succeeds and `makeExecutable`
   * holds, `chmodSync(file, 0o755)`. A failed download deletes the file and
   * the error reaches the `catch` of `main`, which exits with code 1.
   */
  function Fetch(url: string, file: string, makeExecutable: bool, failing: set<string>): (r: seq<Action>)
    ensures r != [] && r[0] == Download(url, file) && ExitsLast(r)
    ensures Stops(r) <==> url in failing
    ensures url in failing ==> r == [Download(url, file), Unlink(file), Exit(1)]
    ensures Chmod(file, Mode755) in r <==> makeExecutable && url !in failing
    ensures forall x :: x in r && x.Chmod? ==> x == Chmod(file, Mode755)
    ensures forall x :: x in r && x.Download? ==> x == Download(url, file)
  {
    if url in failing then [Download(url, file), Unlink(file), Exit(1)]
    else [Download(url, file)] + (if makeExecutable then [Chmod(file, Mode755)] else [])
  }

  /** Runs the steps in order; a step that exits is the last one run. */
  function Sequenced(steps: seq<seq<Action>>): seq<Action> {
    if steps == [] then []
    else if Stops(steps[0]) then steps[0]
    else steps[0] + Sequenced(steps[1..])
  }

  /** All the steps, one after the other (what runs when nothing exits). */
  function Flatten(steps: seq<seq<Action>>): seq<Action> {
    if steps == [] then [] else steps[0] + Flatten(steps[1..])
  }

  /** Running `a` and then `b` is running `a`, then `b` unless `a` exited. */
  lemma {:induction false} SequencedAppend(a: seq<seq<Action>>, b: seq<seq<Action>>)
    ensures Stops(Sequenced(a)) ==> Sequenced(a + b) == Sequenced(a)
    ensures !Stops(Sequenced(a)) ==> Sequenced(a + b) == Sequenced(a) + Sequenced(b)
  {
    if a == [] {
      assert a + b == b;
    } else {
      assert (a + b)[0] == a[0];
      assert (a + b)[1..] == a[1..] + b;
      if !Stops(a[0]) {
        SequencedAppend(a[1..], b);
        var rest := Sequenced(a[1..]);
        if rest != [] {
          assert (a[0] + rest)[|a[0] + rest| - 1] == rest[|rest| - 1];
        }
        assert a[0] + rest + Sequenced(b) == a[0] + (rest + Sequenced(b));
      }
    }
  }

  lemma {:induction false} SequencedOne(step: seq<Action>)
    ensures Sequenced([step]) == step
  {
    assert [step][1..] == [];
  }

  /** The steps up to `i` did not exit: running one more adds that step's actions. */
  lemma {:induction false} SequencedPrefix(steps: seq<seq<Action>>, i: nat)
    requires i < |steps| && !Stops(Sequenced(steps[..i]))
    ensures Sequenced(steps[..i + 1]) == Sequenced(steps[..i]) + steps[i]
    ensures Stops(steps[i]) ==> Sequenced(steps) == Sequenced(steps[..i + 1])
  {
    var done, step, rest := steps[..i], steps[i], steps[i + 1..];
    assert steps[..i + 1] == done + [step];
    assert steps == done + [step] + rest;
    SequencedOne(step);
    SequencedAppend(done, [step]);
    if Stops(step) {
      SequencedAppend(done + [step], rest);
    }
  }

  /** When no step exits, everything runs, in order. */
  lemma {:induction false} SequencedNoExit(steps: seq<seq<Action>>)
    requires forall j :: 0 <= j < |steps| ==> !Stops(steps[j])
    ensures Sequenced(steps) == Flatten(steps)
  {
    if steps != [] {
      SequencedNoExit(steps[1..]);
    }
  }

  /** An exit is always the last action when it is so in every step. */
  lemma {:induction false} SequencedExitsLast(steps: seq<seq<Action>>)
    requires forall j :: 0 <= j < |steps| ==> ExitsLast(steps[j])
    ensures ExitsLast(Sequenced(steps))
  {
    if steps != [] && !Stops(steps[0]) {
      SequencedExitsLast(steps[1..]);
      var s: seq<Action> := steps[0];
      var rest: seq<Action> := Sequenced(steps[1..]);
      var all: seq<Action> := s + rest;
      forall k | 0 <= k < |all| - 1 ensures !all[k].Exit? {
        if k < |s| {
          if k == |s| - 1 {
            assert all[k] == s[|s| - 1];
          }
        } else {
          assert all[k] == rest[k - |s|];
        }
      }
    }
  }

  /** Sequenced actions all come from the steps. */
  lemma {:induction false} SequencedFrom(steps: seq<seq<Action>>, x: Action) returns (j: nat)
    requires x in Sequenced(steps)
    ensures j < |steps| && x in steps[j]
  {
    if Stops(steps[0]) || x in steps[0] {
      j := 0;
    } else {
      var j' := SequencedFrom(steps[1..], x);
      j := j' + 1;
    }
  }

  /** When no step exits, every action of every step is run. */
  lemma {:induction false} FlattenHas(steps: seq<seq<Action>>, j: nat, x: Action)
    requires j < |steps| && x in steps[j]
    ensures x in Flatten(steps)
  {
    if j > 0 {
      FlattenHas(steps[1..], j - 1, x);
    }
  }

  /** The downloads among the actions, in order. */
  function Downloads(actions: seq<Action>): seq<Action> {
    if actions == [] then []
    else (if actions[0].Download? then [actions[0]] else []) + Downloads(actions[1..])
  }

  lemma {:induction false} DownloadsAppend(a: seq<Action>, b: seq<Action>)
    ensures Downloads(a + b) == Downloads(a) + Downloads(b)
  {
    if a == [] {
      assert a + b == b;
    } else {
      assert (a + b)[1..] == a[1..] + b;
      DownloadsAppend(a[1..], b);
    }
  }
}
