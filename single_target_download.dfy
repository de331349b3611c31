/**
 * `script/download-latest-rclone.js`: downloads the rclone binary of the
 * current platform to the fixed name `rclone-dynbox` (`rclone-dynbox.exe` on
 * Windows) and makes it executable except on Windows; with `IGNORE_SYSTEM`
 * set it downloads every asset of the release under its own name instead.
 *
 * The platform, the release information and the failing downloads are
 * parameters; the effects are the list of actions `Run` returns.
 */
module SingleTargetDownload {
  import opened Wrappers
  import opened ReleaseAssets
  import MultiTargetDownload

  const ExecutableName: string := "rclone-dynbox"

  /** `getPlatformInfo`: the target triple of the platform, or `None` (`null`) when it is not supported. */
  function PlatformTarget(system: string, arch: string): Option<string> {
    if system == "darwin" then
      if arch == "arm64" then Some(MultiTargetDownload.AppleArm) else Some(MultiTargetDownload.AppleIntel)
    else if system == "win32" then Some(MultiTargetDownload.Windows)
    else if system == "linux" then Some(MultiTargetDownload.Linux)
    else None
  }

  /** `rclone-dynbox-<triple>`, with `.exe` when the platform is `win32`. */
  function AssetName(system: string, target: string): string {
    MultiTargetDownload.AssetPrefix + target + (if system == "win32" then Exe else "")
  }

  /** The fixed file name the platform's binary is written to. */
  function TargetFile(system: string): string {
    if system == "win32" then ExecutableName + Exe else ExecutableName
  }

  /** One iteration of the `IGNORE_SYSTEM` loop: the asset under its own name, made executable unless it ends in `.exe`. */
  function InstallAsset(a: Asset, failing: set<string>): seq<Action> {
    Fetch(a.url, a.name, !EndsWith(a.name, Exe), failing)
  }

  /** The loop body for every asset, in order. */
  function AssetSteps(assets: seq<Asset>, failing: set<string>): (r: seq<seq<Action>>)
    ensures |r| == |assets|
  {
    seq(|assets|, i requires 0 <= i < |assets| => InstallAsset(assets[i], failing))
  }

  /**
   * The branch for one platform: exit with 1 when no asset has the
   * platform's asset name, otherwise download the first such asset to the
   * fixed file and make it executable unless the platform is `win32`.
   */
  function InstallPlatform(system: string, target: string, assets: seq<Asset>, failing: set<string>): seq<Action> {
    match FirstNamed(assets, AssetName(system, target))
    case None => [Exit(1)]
    case Some(a) => Fetch(a.url, TargetFile(system), system != "win32", failing)
  }

  /**
   * The actions of `main`. `release` is `None` when the release request
   * fails or its answer holds no `assets` array.
   */
  function Plan(system: string, arch: string, ignoreSystem: bool, dirExists: bool,
                release: Option<seq<Asset>>, failing: set<string>): seq<Action>
  {
    var target := PlatformTarget(system, arch);
    MakeTargetDir(dirExists) +
      if target.None? && !ignoreSystem then [Exit(1)]
      else if release.None? then [Exit(1)]
      else if ignoreSystem then Sequenced(AssetSteps(release.value, failing))
      else InstallPlatform(system, target.value, release.value, failing)
  }

  /** The `IGNORE_SYSTEM` loop over the assets: it ends early only when a download fails. */
  method InstallEveryAsset(assets: seq<Asset>, failing: set<string>) returns (actions: seq<Action>)
    ensures actions == Sequenced(AssetSteps(assets, failing))
  {
    ghost var steps := AssetSteps(assets, failing);
    actions := [];
    var i := 0;
    while i < |assets|
      invariant 0 <= i <= |assets|
      invariant !Stops(Sequenced(steps[..i]))
      invariant actions == Sequenced(steps[..i])
    {
      var step := InstallAsset(assets[i], failing);
      assert step == steps[i];
      SequencedPrefix(steps, i);
      actions := actions + step;
      if Stops(step) {
        return;
      }
      i := i + 1;
    }
    assert steps[..i] == steps;
  }

  /** `main`. */
  method Run(system: string, arch: string, ignoreSystem: bool, dirExists: bool,
             release: Option<seq<Asset>>, failing: set<string>) returns (actions: seq<Action>)
    ensures actions == Plan(system, arch, ignoreSystem, dirExists, release, failing)
  {
    actions := MakeTargetDir(dirExists);
    var target := PlatformTarget(system, arch);
    if target.None? && !ignoreSystem {
      actions := actions + [Exit(1)];
    } else if release.None? {
      actions := actions + [Exit(1)];
    } else if ignoreSystem {
      var installed := InstallEveryAsset(release.value, failing);
      actions := actions + installed;
    } else {
      actions := actions + InstallPlatform(system, target.value, release.value, failing);
    }
  }

  // ---------------------------------------------------------------------
  // Agreement with the multi-target script

  /**
   * The platform's triple is one of the triples the multi-target script
   * picks for it, and the platform is unsupported in exactly the same cases.
   */
  lemma PlatformTargetAgrees(system: string, arch: string)
    ensures PlatformTarget(system, arch).None? <==> MultiTargetDownload.PlatformTargets(system, false) == []
    ensures PlatformTarget(system, arch).Some? ==>
              PlatformTarget(system, arch).value in MultiTargetDownload.PlatformTargets(system, false)
  {
  }

  /** Keying the `.exe` on the platform names the same asset as keying it on the triple. */
  lemma AssetNameAgrees(system: string, arch: string)
    requires PlatformTarget(system, arch).Some?
    ensures AssetName(system, PlatformTarget(system, arch).value)
            == MultiTargetDownload.AssetName(PlatformTarget(system, arch).value)
  {
  }

  /** The fixed file name ends in `.exe` exactly on `win32`, so only files not ending in `.exe` are made executable. */
  lemma TargetFileExe(system: string)
    ensures EndsWith(TargetFile(system), Exe) <==> system == "win32"
  {
    if system == "win32" {
      EndsWithAppend(ExecutableName, Exe, Exe);
    } else {
      assert TargetFile(system)[|TargetFile(system)| - 4] == 'n';
    }
  }

  // ---------------------------------------------------------------------
  // What the plan guarantees

  /** An unsupported platform (unless every asset is wanted), or a release without assets, exits with 1 before any download. */
  lemma ExitBeforeDownload(system: string, arch: string, ignoreSystem: bool, dirExists: bool,
                           release: Option<seq<Asset>>, failing: set<string>)
    requires (PlatformTarget(system, arch).None? && !ignoreSystem) || release.None?
    ensures Plan(system, arch, ignoreSystem, dirExists, release, failing) == MakeTargetDir(dirExists) + [Exit(1)]
  {
  }

  /**
   * For a supported platform, the first asset of the platform's name is
   * downloaded to the fixed file, which is then made executable exactly when
   * the platform is not `win32` and the download succeeded; without such an
   * asset the script exits with 1.
   */
  lemma {:induction false} PlatformInstall(system: string, target: string, assets: seq<Asset>, failing: set<string>)
    ensures var r := InstallPlatform(system, target, assets, failing);
            var m := FirstNamed(assets, AssetName(system, target));
            && ExitsLast(r)
            && (m.None? <==> r == [Exit(1)])
            && (m.None? <==> forall a :: a in assets ==> a.name != AssetName(system, target))
            && (m.Some? ==> r[0] == Download(m.value.url, TargetFile(system)))
            && (m.Some? ==> m.value in assets && m.value.name == AssetName(system, target))
            && (forall x :: x in r && x.Download? ==> x.file == TargetFile(system))
            && (Chmod(TargetFile(system), Mode755) in r <==> m.Some? && m.value.url !in failing && system != "win32")
            && (forall x :: x in r && x.Chmod? ==> x == Chmod(TargetFile(system), Mode755))
            && (Stops(r) <==> m.None? || m.value.url in failing)
  {
    var name := AssetName(system, target);
    FirstNamedIsFilterHead(assets, name);
    var m := FirstNamed(assets, name);
    if m.Some? {
      var k := FirstNamedIsFirst(assets, name);
    }
  }

  /** Nothing happens after an exit: an exit is always the last action. */
  lemma PlanExitsLast(system: string, arch: string, ignoreSystem: bool, dirExists: bool,
                      release: Option<seq<Asset>>, failing: set<string>)
    ensures ExitsLast(Plan(system, arch, ignoreSystem, dirExists, release, failing))
  {
    var target := PlatformTarget(system, arch);
    if !(target.None? && !ignoreSystem) && release.Some? {
      var body: seq<Action>;
      if ignoreSystem {
        var steps := AssetSteps(release.value, failing);
        SequencedExitsLast(steps);
        body := Sequenced(steps);
      } else {
        PlatformInstall(system, target.value, release.value, failing);
        body := InstallPlatform(system, target.value, release.value, failing);
      }
      var pre: seq<Action> := MakeTargetDir(dirExists);
      forall k | 0 <= k < |pre + body| - 1 ensures !(pre + body)[k].Exit? {
        if k >= |pre| { assert (pre + body)[k] == body[k - |pre|]; }
      }
    }
  }

  /** The downloads `IGNORE_SYSTEM` asks for: every asset, under its own name, in order. */
  function EveryDownload(assets: seq<Asset>): (r: seq<Action>)
    ensures |r| == |assets|
  {
    seq(|assets|, i requires 0 <= i < |assets| => Download(assets[i].url, assets[i].name))
  }

  /** A step that succeeds downloads exactly its asset. */
  lemma InstallAssetDownloads(a: Asset, failing: set<string>)
    requires a.url !in failing
    ensures Downloads(InstallAsset(a, failing)) == [Download(a.url, a.name)]
    ensures !Stops(InstallAsset(a, failing))
  {
    var r := InstallAsset(a, failing);
    if EndsWith(a.name, Exe) {
      assert r == [Download(a.url, a.name)];
    } else {
      assert r == [Download(a.url, a.name), Chmod(a.name, Mode755)];
      assert r[1..] == [Chmod(a.name, Mode755)];
      assert r[1..][1..] == [];
      assert Downloads(r[1..]) == [];
    }
  }

  lemma {:induction false} EveryStepDownloads(assets: seq<Asset>, failing: set<string>)
    requires forall a :: a in assets ==> a.url !in failing
    ensures Downloads(Flatten(AssetSteps(assets, failing))) == EveryDownload(assets)
  {
    if assets != [] {
      var steps := AssetSteps(assets, failing);
      assert steps[1..] == AssetSteps(assets[1..], failing);
      assert EveryDownload(assets) == [Download(assets[0].url, assets[0].name)] + EveryDownload(assets[1..]);
      EveryStepDownloads(assets[1..], failing);
      InstallAssetDownloads(assets[0], failing);
      DownloadsAppend(steps[0], Flatten(steps[1..]));
    }
  }

  /**
   * With `IGNORE_SYSTEM` and no failing download, every asset of the release
   * is downloaded under its own name, in the order of the release, whatever
   * the platform.
   */
  lemma IgnoreSystemDownloadsAll(system: string, arch: string, dirExists: bool,
                                 assets: seq<Asset>, failing: set<string>)
    requires forall a :: a in assets ==> a.url !in failing
    ensures Downloads(Plan(system, arch, true, dirExists, Some(assets), failing)) == EveryDownload(assets)
  {
    var steps := AssetSteps(assets, failing);
    forall j | 0 <= j < |steps| ensures !Stops(steps[j]) {
      InstallAssetDownloads(assets[j], failing);
    }
    SequencedNoExit(steps);
    EveryStepDownloads(assets, failing);
    DownloadsAppend(MakeTargetDir(dirExists), Flatten(steps));
  }

  /**
   * With `IGNORE_SYSTEM`, only assets whose name does not end in `.exe` are
   * made executable, and when no download fails every such asset is.
   */
  lemma IgnoreSystemChmod(assets: seq<Asset>, failing: set<string>, x: Action) returns (a: Asset)
    requires x in Sequenced(AssetSteps(assets, failing)) && x.Chmod?
    ensures a in assets && a.url !in failing && !EndsWith(a.name, Exe)
    ensures x == Chmod(a.name, Mode755)
  {
    var j := SequencedFrom(AssetSteps(assets, failing), x);
    a := assets[j];
  }

  lemma IgnoreSystemChmodAll(assets: seq<Asset>, failing: set<string>, j: nat)
    requires forall a :: a in assets ==> a.url !in failing
    requires j < |assets| && !EndsWith(assets[j].name, Exe)
    ensures Chmod(assets[j].name, Mode755) in Sequenced(AssetSteps(assets, failing))
  {
    var steps := AssetSteps(assets, failing);
    forall i | 0 <= i < |steps| ensures !Stops(steps[i]) {
      InstallAssetDownloads(assets[i], failing);
    }
    SequencedNoExit(steps);
    FlattenHas(steps, j, Chmod(assets[j].name, Mode755));
  }
}
