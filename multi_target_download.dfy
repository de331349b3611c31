/**
 * `scripts/download-latest-rclone.js`: downloads, into the target
 * directory, the rclone binary of every target triple the current platform
 * builds for (or of all four when `IGNORE_SYSTEM` is set), each under its
 * asset name, and makes the non-Windows ones executable.
 *
 * The platform, the release information and the failing downloads are
 * parameters; the effects are the list of actions `Run` returns.
 */
module MultiTargetDownload {
  import opened Wrappers
  import opened ReleaseAssets

  const AppleArm: string := "aarch64-apple-darwin"
  const AppleIntel: string := "x86_64-apple-darwin"
  const Windows: string := "x86_64-pc-windows-msvc"
  const Linux: string := "x86_64-unknown-linux-gnu"

  /** Every supported target triple, in the order listed. */
  const AllPlatforms: seq<string> := [AppleArm, AppleIntel, Windows, Linux]

  const AssetPrefix: string := "rclone-dynbox-"

  /**
   * `getPlatformInfo`: the triples for `os.platform()` (lower-cased), or all
   * of them when `IGNORE_SYSTEM` is set. The architecture plays no part.
   */
  function PlatformTargets(system: string, ignoreSystem: bool): seq<string> {
    if ignoreSystem then AllPlatforms
    else if system == "darwin" then [AppleArm, AppleIntel]
    else if system == "win32" then [Windows]
    else if system == "linux" then [Linux]
    else []
  }

  /** The position of a supported triple in `AllPlatforms`. */
  function Rank(t: string): nat {
    if t == AppleArm then 0 else if t == AppleIntel then 1 else if t == Windows then 2 else 3
  }

  /** The targets are supported triples, listed once each and in the order of `AllPlatforms`. */
  lemma PlatformTargetsSupported(system: string, ignoreSystem: bool)
    ensures var r := PlatformTargets(system, ignoreSystem);
            && (forall t :: t in r ==> t in AllPlatforms)
            && (forall i, j :: 0 <= i < j < |r| ==> Rank(r[i]) < Rank(r[j]))
            && (forall i, j :: 0 <= i < j < |r| ==> r[i] != r[j])
            && (ignoreSystem ==> r == AllPlatforms)
            && (r == [] <==> !ignoreSystem && system != "darwin" && system != "win32" && system != "linux")
  {
  }

  /** `rclone-dynbox-<triple>`, with `.exe` for the Windows triple. */
  function AssetName(target: string): string {
    AssetPrefix + target + (if target == Windows then Exe else "")
  }

  /** Of the supported triples, exactly the Windows one gets an asset name ending in `.exe`. */
  lemma AssetNameExe(target: string)
    requires target in AllPlatforms
    ensures EndsWith(AssetName(target), Exe) <==> target == Windows
  {
    if target == Windows {
      EndsWithAppend(AssetPrefix + target, Exe, Exe);
    } else {
      assert AssetName(target) == AssetPrefix + target;
      EndsWithAppend(AssetPrefix, target, Exe);
      assert target[|target| - 2] != 'x';
    }
  }

  /**
   * One iteration of the loop over the targets: a target without an asset
   * of exactly its name is skipped; otherwise the first such asset is
   * downloaded under its own name and made executable unless it ends in
   * `.exe`.
   */
  function InstallTarget(target: string, assets: seq<Asset>, failing: set<string>): seq<Action> {
    match FirstNamed(assets, AssetName(target))
    case None => []
    case Some(a) => Fetch(a.url, a.name, !EndsWith(a.name, Exe), failing)
  }

  /** The loop body for every target, in order. */
  function TargetSteps(targets: seq<string>, assets: seq<Asset>, failing: set<string>): (r: seq<seq<Action>>)
    ensures |r| == |targets|
  {
    seq(|targets|, i requires 0 <= i < |targets| => InstallTarget(targets[i], assets, failing))
  }

  /**
   * The actions of `main`. `release` is `None` when the release request
   * fails, answers with an error status, or holds no `assets` array.
   */
  function Plan(system: string, ignoreSystem: bool, dirExists: bool,
                release: Option<seq<Asset>>, failing: set<string>): seq<Action>
  {
    var targets := PlatformTargets(system, ignoreSystem);
    MakeTargetDir(dirExists) +
      if targets == [] then [Exit(1)]
      else if release.None? then [Exit(1)]
      else Sequenced(TargetSteps(targets, release.value, failing))
  }

  /** The loop over the targets: it ends early only when a download fails. */
  method InstallTargets(targets: seq<string>, assets: seq<Asset>, failing: set<string>)
      returns (actions: seq<Action>)
    ensures actions == Sequenced(TargetSteps(targets, assets, failing))
  {
    ghost var steps := TargetSteps(targets, assets, failing);
    actions := [];
    var i := 0;
    while i < |targets|
      invariant 0 <= i <= |targets|
      invariant !Stops(Sequenced(steps[..i]))
      invariant actions == Sequenced(steps[..i])
    {
      var step := InstallTarget(targets[i], assets, failing);
      assert step == steps[i];
      SequencedPrefix(steps, i);
      actions := actions + step;
      if Stops(step) {
        return;
      }
      i := i + 1;
    }
    assert steps[..i] == steps;
  }

  /** `main`. */
  method Run(system: string, ignoreSystem: bool, dirExists: bool,
             release: Option<seq<Asset>>, failing: set<string>) returns (actions: seq<Action>)
    ensures actions == Plan(system, ignoreSystem, dirExists, release, failing)
  {
    actions := MakeTargetDir(dirExists);
    var targets := PlatformTargets(system, ignoreSystem);
    if targets == [] {
      actions := actions + [Exit(1)];
    } else if release.None? {
      actions := actions + [Exit(1)];
    } else {
      var installed := InstallTargets(targets, release.value, failing);
      actions := actions + installed;
    }
  }

  // ---------------------------------------------------------------------
  // What the plan guarantees

  /** An unsupported platform, or release information without assets, exits with 1 before any download. */
  lemma ExitBeforeDownload(system: string, ignoreSystem: bool, dirExists: bool,
                           release: Option<seq<Asset>>, failing: set<string>)
    requires PlatformTargets(system, ignoreSystem) == [] || release.None?
    ensures Plan(system, ignoreSystem, dirExists, release, failing) == MakeTargetDir(dirExists) + [Exit(1)]
  {
  }

  /** Every step exits only at its end. */
  lemma StepsExitLast(targets: seq<string>, assets: seq<Asset>, failing: set<string>)
    ensures forall j :: 0 <= j < |targets| ==> ExitsLast(TargetSteps(targets, assets, failing)[j])
  {
  }

  /** Nothing happens after an exit: an exit is always the last action. */
  lemma PlanExitsLast(system: string, ignoreSystem: bool, dirExists: bool,
                      release: Option<seq<Asset>>, failing: set<string>)
    ensures ExitsLast(Plan(system, ignoreSystem, dirExists, release, failing))
  {
    var targets := PlatformTargets(system, ignoreSystem);
    if targets != [] && release.Some? {
      var steps := TargetSteps(targets, release.value, failing);
      StepsExitLast(targets, release.value, failing);
      SequencedExitsLast(steps);
      var pre: seq<Action> := MakeTargetDir(dirExists);
      var body: seq<Action> := Sequenced(steps);
      forall k | 0 <= k < |pre + body| - 1 ensures !(pre + body)[k].Exit? {
        if k >= |pre| { assert (pre + body)[k] == body[k - |pre|]; }
      }
    }
  }

  /**
   * Every download fetches the first asset named after one of the targets
   * and writes it under that asset's own name.
   */
  lemma DownloadIsFirstMatch(targets: seq<string>, assets: seq<Asset>, failing: set<string>, x: Action)
      returns (t: string)
    requires x in Sequenced(TargetSteps(targets, assets, failing)) && x.Download?
    ensures t in targets
    ensures FirstNamed(assets, AssetName(t)) == Some(Asset(x.file, x.url))
    ensures x.file == AssetName(t)
  {
    var steps := TargetSteps(targets, assets, failing);
    var j := SequencedFrom(steps, x);
    t := targets[j];
    var a := FirstNamed(assets, AssetName(t)).value;
    var _ := FirstNamedIsFirst(assets, AssetName(t));
  }

  /**
   * Only a downloaded, supported, non-Windows target is made executable,
   * with mode 755, and its file name does not end in `.exe`.
   */
  lemma ChmodOnlyNonWindows(targets: seq<string>, assets: seq<Asset>, failing: set<string>, x: Action)
      returns (t: string)
    requires forall t :: t in targets ==> t in AllPlatforms
    requires x in Sequenced(TargetSteps(targets, assets, failing)) && x.Chmod?
    ensures t in targets && t != Windows
    ensures x == Chmod(AssetName(t), Mode755)
    ensures !EndsWith(x.file, Exe)
    ensures FirstNamed(assets, AssetName(t)).Some?
    ensures FirstNamed(assets, AssetName(t)).value.url !in failing
  {
    var steps := TargetSteps(targets, assets, failing);
    var j := SequencedFrom(steps, x);
    t := targets[j];
    var a := FirstNamed(assets, AssetName(t)).value;
    var _ := FirstNamedIsFirst(assets, AssetName(t));
    AssetNameExe(t);
  }

  /**
   * When no download fails, every target that has an asset of its name is
   * downloaded under that name, and it is made executable exactly when it is
   * not the Windows target.
   */
  lemma EveryMatchInstalled(targets: seq<string>, assets: seq<Asset>, failing: set<string>, j: nat)
    requires forall a :: a in assets ==> a.url !in failing
    requires forall t :: t in targets ==> t in AllPlatforms
    requires j < |targets| && FirstNamed(assets, AssetName(targets[j])).Some?
    ensures var a := FirstNamed(assets, AssetName(targets[j])).value;
            var run := Sequenced(TargetSteps(targets, assets, failing));
            && Download(a.url, AssetName(targets[j])) in run
            && (Chmod(AssetName(targets[j]), Mode755) in run <==> targets[j] != Windows)
  {
    var steps := TargetSteps(targets, assets, failing);
    var t := targets[j];
    var a := FirstNamed(assets, AssetName(t)).value;
    var _ := FirstNamedIsFirst(assets, AssetName(t));
    AssetNameExe(t);
    forall i | 0 <= i < |steps| ensures !Stops(steps[i]) {
      var m := FirstNamed(assets, AssetName(targets[i]));
      if m.Some? {
        var _ := FirstNamedIsFirst(assets, AssetName(targets[i]));
      }
    }
    SequencedNoExit(steps);
    FlattenHas(steps, j, Download(a.url, a.name));
    if t != Windows {
      FlattenHas(steps, j, Chmod(a.name, Mode755));
    } else if Chmod(AssetName(t), Mode755) in Sequenced(steps) {
      var t' := ChmodOnlyNonWindows(targets, assets, failing, Chmod(AssetName(t), Mode755));
      AssetNameInjective(t, t');
    }
  }

  /** Different supported triples have different asset names. */
  lemma AssetNameInjective(t: string, u: string)
    requires t in AllPlatforms && u in AllPlatforms && AssetName(t) == AssetName(u)
    ensures t == u
  {
    AssetNameExe(t);
    AssetNameExe(u);
    if t != Windows && u != Windows {
      assert AssetName(t)[|AssetPrefix|..] == t;
      assert AssetName(u)[|AssetPrefix|..] == u;
    }
  }

  /**
   * The targets are processed in order: running the loop over `a + b` is
   * running it over `a` and, unless that exited, then over `b`.
   */
  lemma TargetsInOrder(a: seq<string>, b: seq<string>, assets: seq<Asset>, failing: set<string>)
    ensures var first := Sequenced(TargetSteps(a, assets, failing));
            var both := Sequenced(TargetSteps(a + b, assets, failing));
            && (!Stops(first) ==> both == first + Sequenced(TargetSteps(b, assets, failing)))
            && (Stops(first) ==> both == first)
  {
    var sa := TargetSteps(a, assets, failing);
    var sb := TargetSteps(b, assets, failing);
    assert TargetSteps(a + b, assets, failing) == sa + sb;
    SequencedAppend(sa, sb);
  }
}
