# Dynbox desktop sync core, in Dafny

Dynbox is a desktop application that mounts a user's cloud vaults as local folders through a bundled `rclone-dynbox` sidecar. This project models its core and proves properties of that model:

- **Sync coordinator** (`sync_coordinator.dfy`, from `src/app/page.tsx`):
  - builds the `rclone mount` command line for each enabled vault;
  - starts the mounts one after the other and tracks the running children;
  - stops them all;
  - reacts to a child closing;
  - flags when the saved configuration drifts from the snapshot taken at start.
  It is a `Coordinator` class whose fields are the page's state: the stored configuration, the running children, the snapshot and the log. Every method keeps its invariant `Valid`: no snapshot without running children, unique configuration keys, and at most one running process per vault.
- **Vault configuration** (`vault_config.dfy`): the `vaults` store entry, an object from vault id to `{ directory?, enabled }`, kept as an ordered list of entries. It includes the three edits the page makes (toggle, select a directory, remove a directory).
- **Configuration JSON** (`config_json.dfy`): `JSON.stringify` of a configuration, as the drift check compares it. The model proves it injective.
- **UI log window** (`log_window.dfy`, from `src/app/_components/ui-logger.tsx`): an append-only log that keeps its 1000 most recent lines.
- **Folder-name sanitiser** (`folder_name.dfy`, from `src/lib/utils/folder-name.ts`): the pipeline from a vault name to a folder name that is safe on every platform, followed by shell escaping.
- **Deep-link authorisation** (`authorize.dfy`, from `src-tauri/src/authorize.rs`): takes the token from the first `dynbox://authorize?token=…` URL and saves it in the key-value store.
- **The two rclone download scripts**:
  - `multi_target_download.dfy` models `scripts/download-latest-rclone.js`;
  - `single_target_download.dfy` models `script/download-latest-rclone.js`;
  - `release_assets.dfy` holds what the two share. Each effect of a script (create the directory, download, unlink, chmod, exit) is recorded as an action, and each script is a method that returns its action list.

How the outside world enters the model:
- Operating-system and network answers are parameters:
  - the platform and architecture;
  - whether the target directory exists;
  - the release's asset list, or `None`;
  - the set of URLs whose download fails;
  - whether the store fails to open or save;
  - which spawn attempt fails and which child closes during the start loop (a function `spawn`);
  - which kills fail (a set).
- The child-process callbacks are methods of the coordinator: `ProcessClosed`, `ProcessError` and `ProcessOutput`.

Modelling decisions:
- **Close events during start.** While the start loop runs, a child's close event filters the React state. That state is `[]` at that moment. The loop's own list is written over it at the end. So the model applies such a close after the loop. The final state is the same:
  - an exit note is logged;
  - the child stays in the running list;
  - the snapshot is cleared, because the running list was empty when the close event fired.
- **Failed spawn.** When a spawn throws, the processes already spawned keep running but are not tracked (the running list stays `[]`). The model states this: `launched` holds every command started, and `running` is `[]`.
- **Key order.** JSON text depends on key order. In every JSON text the page produces, a defined `directory` comes before `enabled`, so settings are modelled with that order. `handleRemoveDirectory` (`src/app/page.tsx:115`) adds `directory` after `enabled` to an entry that had none. `handleToggleVault` (`src/app/page.tsx:124`) keeps the entry's own order, which has `directory` after `enabled` only in such an entry. Neither changes the text: in both cases that `directory` is `undefined`, and `JSON.stringify` omits an `undefined` member.
- **Behaviour of the code that the model keeps:**
  - The snapshot is taken before the spawn loop (`src/app/page.tsx:166`). A start that fails, or that tracks no child, clears it again.
  - A failed kill leaves the running list and the snapshot as they were, because `setRunningChildren([])` is skipped by the `catch` (`src/app/page.tsx:149-155`). Only an error is logged.
  - A vault whose name cannot be resolved is skipped with a `console.error`, which does not reach the UI log (`src/app/page.tsx:179-182`).
- **The log binding.** The page binds `addLog` to a member `add` that `useLog()` does not return (see Findings), so as written every `addLog(...)` call throws. `Coordinator.HandleStartSyncAsWritten` and `Coordinator.ProcessClosedAsWritten` model that code. Every other member of the coordinator (`Start`, `Stop`, `HandleStartSync`, `ProcessClosed`, `ProcessError`, `ProcessOutput`) models the page with `addLog` bound to `useLog().addLog`, and the log lines they state are those of that corrected page. The as-written `error` and `stdout`/`stderr` listeners throw and log nothing. They are not modelled separately.
- **Removing a directory for an id with no entry.** The page throws here, because it sets `config.directory = undefined` on `undefined`. The model's `RemoveDirectory` returns `ok == false` and changes nothing.

## Model

| member | source | states |
|---|---|---|
| LogWindow.Recent | src/app/_components/ui-logger.tsx:26-28 | the window keeps `min(n, 1000)` lines, and they are the last lines, in order |
| LogWindow.Appended | src/app/_components/ui-logger.tsx:17-31 | after an append the newest line is last and the window holds 1..1000 lines; below capacity it is the old window plus the line; at capacity the oldest line is dropped |
| LogWindow.RecentOfRecent | src/app/_components/ui-logger.tsx:26-28 | trimming the window again changes nothing |
| LogWindow.AppendedThenRecent | src/app/_components/ui-logger.tsx:17-31 | an append is the trimmed window of the untrimmed list plus the line |
| LogWindow.AppendedAllKeepsRecent | src/app/_components/ui-logger.tsx:17-31 | any number of appends yields the last 1000 lines of the whole history |
| LogWindow.Logger.Add | src/app/_components/ui-logger.tsx:17-31 | `addLog` replaces the log with the appended window |
| FolderName.StripForbiddenSpec | src/lib/utils/folder-name.ts:18 | a unit is kept exactly when it occurs in the input and is not forbidden; no forbidden unit is left; a text without any is unchanged |
| FolderName.StripForbiddenAppend | src/lib/utils/folder-name.ts:18 | the kept units stay in order: stripping a concatenation strips each part |
| FolderName.DropLeadingDotsSpec | src/lib/utils/folder-name.ts:20 | the leading run of dots is removed and nothing else |
| FolderName.DropTrailingDotsSpec | src/lib/utils/folder-name.ts:20 | the trailing run of dots is removed and nothing else |
| FolderName.ScanEdgeDotsAgrees | src/lib/utils/folder-name.ts:20 | the character scan agrees with replacing the leading and the trailing dot run by `_` |
| FolderName.ReplaceEdgeDotsSpec | src/lib/utils/folder-name.ts:20 | the maximal leading dot run `s[..lo]` and trailing dot run `s[hi..]` each become one `_` when not empty, and `s[lo..hi]` is kept; an all-dots name becomes `_`; the result begins and ends with no dot and is empty only for the empty input |
| FolderName.CollapseWhitespaceSpaced | src/lib/utils/folder-name.ts:22 | after collapsing, no whitespace remains except single spaces |
| FolderName.CollapseWhitespaceKeeps | src/lib/utils/folder-name.ts:22 | collapsing keeps the non-whitespace characters, in order |
| FolderName.TrimSpec | src/lib/utils/folder-name.ts:24 | the trimmed text is a slice `s[lo..hi]` with only whitespace outside it and none at either end of it, and it has the same non-whitespace units; a trimmed text is unchanged |
| FolderName.TrimSlice | src/lib/utils/folder-name.ts:24 | `Trim` (`trim`) keeps a slice of the input; everything outside it is whitespace and neither of its ends is |
| FolderName.TrimKeeps | src/lib/utils/folder-name.ts:24 | `Trim` drops whitespace only: the non-whitespace units are unchanged |
| FolderName.GuardReservedSpec | src/lib/utils/folder-name.ts:27-30 | a reserved device name (any case) gets a `_` prefix, and every other name is unchanged |
| FolderName.TruncateSpec | src/lib/utils/folder-name.ts:38 | `Truncate` (`slice(0, 255)`) gives the first `min(n, 255)` code units: the whole name up to 255 units, exactly 255 units otherwise |
| FolderName.CleanedIsClean | src/lib/utils/folder-name.ts:16-24 | the cleaned text has no forbidden characters and single spaces only, and is trimmed |
| FolderName.PresanitizedIsClean | src/lib/utils/folder-name.ts:16-38 | `Presanitized` (the name before escaping) is 1..255 units long, has no forbidden character or backslash, is single-spaced, is not a reserved name, and starts with no whitespace; it ends with none when no cut was needed |
| FolderName.PresanitizedDefault | src/lib/utils/folder-name.ts:33-35 | a name that cleans to nothing becomes `Dynbox Vault` |
| FolderName.PresanitizedReserved | src/lib/utils/folder-name.ts:27-30 | a name that cleans to a reserved name comes out with the `_` prefix |
| FolderName.SanitizeEmptiness | src/lib/utils/folder-name.ts:10-12 | the empty input gives the empty result, and every other input gives a non-empty one |
| FolderName.SanitizeDefault | src/lib/utils/folder-name.ts:33-42 | a non-empty input that cleans to nothing gives the escaped default `Dynbox\ Vault` |
| FolderName.EscapeIsWellEscaped | src/lib/utils/folder-name.ts:42 | `Escape` puts a backslash before every special character and nowhere else |
| FolderName.UnescapeEscape | src/lib/utils/folder-name.ts:42 | removing the escapes gives back the unescaped text |
| FolderName.SanitizeRoundTrip | src/lib/utils/folder-name.ts:42 | the output is well escaped, and unescaping it gives the clean name |
| FolderName.SanitizeFolderNameSpec | src/lib/utils/folder-name.ts:9-43 | `SanitizeFolderName`: the empty input gives the empty string; any other input gives a well-escaped name that unescapes to the name before escaping, which is 1..255 units, clean, single-spaced, not starting with whitespace and not reserved |
| FolderName.EdgeDotsSurviveTrim | src/lib/utils/folder-name.ts:20-24 | as written: a name of dots between spaces yields only dots, e.g. `" . "` → `"."` |
| FolderName.TruncationLeavesTrailingSpace | src/lib/utils/folder-name.ts:24-38 | as written: a clean name over 255 units whose 255th unit is a space is cut to a name ending in a space |
| FolderName.IntendedPresanitizedIsClean | src/lib/utils/folder-name.ts:16-38 | corrected pipeline: 1..255 units, clean, trimmed at both ends, no dot at either end, not a reserved name |
| ReleaseAssets.EndsWithAppend | scripts/download-latest-rclone.js:149 | a suffix no longer than the last word is decided by that word alone |
| ReleaseAssets.FirstNamedIsFilterHead | scripts/download-latest-rclone.js:133-141 | the first-match scan is the head of `filter`; nothing is found exactly when no asset has the name |
| ReleaseAssets.FirstNamedIsFirst | scripts/download-latest-rclone.js:133-141 | `FirstNamed`: the asset found has the name asked for, and no earlier asset does |
| ReleaseAssets.Fetch | scripts/download-latest-rclone.js:146-158 | a download comes first; a failed download unlinks the file and exits 1; chmod 755 happens exactly when asked and the download succeeded |
| ReleaseAssets.SequencedAppend | scripts/download-latest-rclone.js:155-158 | running two lists of steps is running the first, then the second unless the first exited |
| ReleaseAssets.SequencedPrefix | scripts/download-latest-rclone.js:127-154 | one more loop iteration appends its step's actions |
| ReleaseAssets.SequencedNoExit | scripts/download-latest-rclone.js:127-154 | with no exit, every step runs, in order |
| ReleaseAssets.SequencedExitsLast | scripts/download-latest-rclone.js:155-158 | an exit is always the last action |
| ReleaseAssets.SequencedFrom | scripts/download-latest-rclone.js:127-154 | every action run comes from one of the steps |
| ReleaseAssets.FlattenHas | scripts/download-latest-rclone.js:127-154 | with no exit, every action of every step is run |
| ReleaseAssets.DownloadsAppend | scripts/download-latest-rclone.js:146 | the downloads of a concatenation are the concatenated downloads |
| MultiTargetDownload.PlatformTargetsSupported | scripts/download-latest-rclone.js:13-42 | `PlatformTargets` (`getPlatformInfo`): supported triples, distinct and in the order of the full list; `IGNORE_SYSTEM` gives all four; none exactly for an unsupported system |
| MultiTargetDownload.AssetNameExe | scripts/download-latest-rclone.js:128-131 | exactly the Windows triple's asset name ends in `.exe` |
| MultiTargetDownload.AssetNameInjective | scripts/download-latest-rclone.js:128-131 | distinct triples get distinct asset names |
| MultiTargetDownload.InstallTargets | scripts/download-latest-rclone.js:127-154 | the loop's actions are the targets' steps run in order, stopping at an exit |
| MultiTargetDownload.Run | scripts/download-latest-rclone.js:75-159 | `main`'s actions are `Plan`: mkdir if missing, exit on no platform or no release, else the install loop |
| MultiTargetDownload.ExitBeforeDownload | scripts/download-latest-rclone.js:94-124 | with no platform target or no release, the script only makes the directory and exits 1 |
| MultiTargetDownload.PlanExitsLast | scripts/download-latest-rclone.js:75-159 | nothing happens after an exit |
| MultiTargetDownload.DownloadIsFirstMatch | scripts/download-latest-rclone.js:133-146 | every download is of the first asset named for one of the targets, to a file with that name |
| MultiTargetDownload.ChmodOnlyNonWindows | scripts/download-latest-rclone.js:149-151 | every chmod is of a non-Windows target's file, whose download succeeded |
| MultiTargetDownload.EveryMatchInstalled | scripts/download-latest-rclone.js:127-154 | with no failing download, every target that has an asset is downloaded, and chmodded exactly when not Windows |
| MultiTargetDownload.TargetsInOrder | scripts/download-latest-rclone.js:127-154 | targets are installed in list order; a later one runs only if no earlier one exited |
| SingleTargetDownload.PlatformTargetAgrees | script/download-latest-rclone.js:15-35 | `PlatformTarget` (`getPlatformInfo`): there is a target exactly when the other script finds some, and it is one of those |
| SingleTargetDownload.AssetNameAgrees | script/download-latest-rclone.js:122-125 | the asset name agrees with the other script's |
| SingleTargetDownload.TargetFileExe | script/download-latest-rclone.js:138-143 | the fixed file name ends in `.exe` exactly on `win32` |
| SingleTargetDownload.ExitBeforeDownload | script/download-latest-rclone.js:75-101 | with no platform (and `IGNORE_SYSTEM` off) or no release, the script only makes the directory and exits 1 |
| SingleTargetDownload.PlatformInstall | script/download-latest-rclone.js:120-153 | no matching asset means exit 1; otherwise the first match is downloaded to the fixed file, which is chmodded exactly when the download succeeded and the platform is not `win32` |
| SingleTargetDownload.PlanExitsLast | script/download-latest-rclone.js:56-159 | nothing happens after an exit |
| SingleTargetDownload.InstallEveryAsset | script/download-latest-rclone.js:103-119 | the loop's actions are every asset's step run in order, stopping at an exit |
| SingleTargetDownload.Run | script/download-latest-rclone.js:56-159 | `main`'s actions are `Plan`: mkdir if missing, exit on no platform or no release, else the chosen branch |
| SingleTargetDownload.InstallAssetDownloads | script/download-latest-rclone.js:105-116 | a succeeding asset step downloads that asset under its own name and does not exit |
| SingleTargetDownload.EveryStepDownloads | script/download-latest-rclone.js:103-119 | with no failure, the steps download every asset in order |
| SingleTargetDownload.IgnoreSystemDownloadsAll | script/download-latest-rclone.js:103-119 | with `IGNORE_SYSTEM` and no failure, the script downloads every asset, in order |
| SingleTargetDownload.IgnoreSystemChmod | script/download-latest-rclone.js:113-116 | every chmod is of an asset whose name does not end in `.exe` and whose download succeeded |
| SingleTargetDownload.IgnoreSystemChmodAll | script/download-latest-rclone.js:113-116 | with no failure, every asset not ending in `.exe` is chmodded |
| Authorize.FindTokenIsFirst | src-tauri/src/authorize.rs:15-18 | `FindToken`: the token is the value of the first `token` pair; there is none exactly when no pair has that key |
| Authorize.FirstTokenIsFirst | src-tauri/src/authorize.rs:11-31 | `FirstToken`: the token used is from the first `dynbox://authorize` URL that has one |
| Authorize.LaterUrlsIgnored | src-tauri/src/authorize.rs:28 | URLs after the first one with a token change nothing |
| Authorize.Store.Set | src-tauri/src/authorize.rs:22 | the store's entry `token` is set in memory only |
| Authorize.Store.Save | src-tauri/src/authorize.rs:25 | a save writes the entries to disk, or fails and leaves the disk as it was |
| Authorize.ProcessAuthUrls | src-tauri/src/authorize.rs:10-35 | no token: Ok and the store untouched; open failure: that error; else `token` is set and saved, and a save error is returned |
| VaultConfig.LookupSome | src/app/page.tsx:124-125 | a lookup finds the entry with that id, which is in the list |
| VaultConfig.PutLookup | src/app/page.tsx:84-89 | `Put` (`{...c, [id]: s}`): afterwards the id maps to `s` and every other id is unchanged |
| VaultConfig.PutIds | src/app/page.tsx:84-89 | a present key keeps its place, and a new key goes last |
| VaultConfig.PutPut | src/app/page.tsx:99-105 | writing the same key twice keeps only the second value |
| VaultConfig.PutUnique | src/app/page.tsx:84-89 | writing a key keeps the keys distinct |
| VaultConfig.WithoutLookup | src/app/page.tsx:114 | `Without` (the rest-destructure) drops exactly that id |
| VaultConfig.WithoutIds | src/app/page.tsx:114 | the remaining keys are exactly the other keys |
| VaultConfig.WithoutAppend | src/app/page.tsx:114 | the remaining entries keep their order: dropping a key from a concatenation drops it from each part |
| VaultConfig.WithoutUnique | src/app/page.tsx:114 | dropping a key keeps the keys distinct |
| VaultConfig.ToggledSpec | src/app/page.tsx:120-128 | `Toggled`: flips `enabled` (an absent vault counts as disabled), keeps the directory, leaves every other vault unchanged; a present key keeps its place and a new one goes last |
| VaultConfig.ToggledTwice | src/app/page.tsx:120-128 | toggling a present vault twice gives back the whole configuration |
| VaultConfig.PutSame | src/app/page.tsx:120-128 | writing an entry's own settings back leaves the configuration unchanged |
| VaultConfig.ForwardSlashesClean | src/app/page.tsx:102 | the stored directory has no backslash, and converting it again changes nothing |
| VaultConfig.FindVaultSpec | src/app/page.tsx:80-81 | `FindVault`: the vault found is `vaults[k]`, has that id, and no earlier vault has it; there is none exactly when no vault has it |
| VaultConfig.DirectorySelectedSpec | src/app/page.tsx:76-110 | `DirectorySelected`: a chosen folder is stored with forward slashes and enabled, other vaults are unchanged, and as a volume the `{ enabled: true }` write comes first |
| VaultConfig.DirectoryCancelled | src/app/page.tsx:76-96 | an unknown vault, or a cancelled dialog not as a volume, changes nothing; a cancelled dialog as a volume leaves `{ enabled: true }` and other vaults unchanged |
| VaultConfig.DirectoryRemovedSpec | src/app/page.tsx:112-118 | `DirectoryRemoved`: the vault's directory is cleared, `enabled` is kept, the vault moves last after the others in their order, and ids stay distinct |
| VaultConfig.DirectoryRemovedAbsent | src/app/page.tsx:112-118 | with no entry for the id there is no result (the page throws) |
| VaultConfig.LookupAppend | src/app/page.tsx:116 | a lookup in a list with one entry appended finds an earlier entry first, then the new one |
| ConfigJson.HexRoundTrip | src/app/page.tsx:69 | a hex digit reads back as its value |
| ConfigJson.ReadEscapedChar | src/app/page.tsx:69 | reading one escaped character gives back that character and the rest of the text |
| ConfigJson.StrPrefix | src/app/page.tsx:69 | a JSON string is read back whatever text follows it |
| ConfigJson.ValuePrefix | src/app/page.tsx:69 | a settings object is read back whatever text follows it |
| ConfigJson.MembersPrefix | src/app/page.tsx:69 | a configuration's members are read back from their text |
| ConfigJson.StringifyInjective | src/app/page.tsx:69 | `Stringify` (`JSON.stringify`): two configurations serialise to the same text exactly when they are equal |
| SyncCoordinator.MountArgvShape | src/app/page.tsx:184-196 | `MountArgv`: the argv is `mount`, the remote, the mount point, `--volname=<name>` only without a directory, then the three fixed flags |
| SyncCoordinator.CompactSpec | src/app/page.tsx:195 | `.filter(Boolean)` keeps exactly the values of the truthy slots |
| SyncCoordinator.CompactAppend | src/app/page.tsx:195 | the filter keeps the slots in order: filtering a concatenation filters each part |
| SyncCoordinator.VolumeNameIffNoDirectory | src/app/page.tsx:189-190 | `--volname` appears exactly when no directory is set; the argv has 6 or 7 arguments; the mount point is `dir/name` or `*` |
| SyncCoordinator.EligibleMembers | src/app/page.tsx:174-182 | `Eligible`: a mount is planned exactly when some configuration entry gives it, i.e. the entry is enabled, its vault is found with a non-empty name, its id is non-empty and there is a token |
| SyncCoordinator.EligibleAppend | src/app/page.tsx:168-182 | the entries are filtered in order |
| SyncCoordinator.EligibleDistinct | src/app/page.tsx:168-182 | with unique configuration keys, no two mounts are for the same vault id |
| SyncCoordinator.StartTraceChildren | src/app/page.tsx:168-243 | `StartTrace`: the j-th child collected is the j-th eligible vault with the j-th spawned process; all eligible vaults get one unless a spawn failed; children exist only with a token |
| SyncCoordinator.StartChildrenDistinct | src/app/page.tsx:171-243 | with unique configuration keys, a start's children hold at most one process per vault id |
| SyncCoordinator.StartTraceLaunches | src/app/page.tsx:184-237 | every command started is the mount argv of an eligible vault, in order |
| SyncCoordinator.StartTraceFailure | src/app/page.tsx:244-252 | the start fails exactly when fewer children were spawned than eligible vaults, and then the next spawn failed |
| SyncCoordinator.StartTraceCloses | src/app/page.tsx:198-207 | an exit is noted exactly for each child that closes during the start, and only then |
| SyncCoordinator.StartMountsEligible | src/app/page.tsx:168-243 | when every spawn succeeds, every eligible vault is running, in order |
| SyncCoordinator.StartLoop | src/app/page.tsx:174-241 | the sequential spawn loop computes the start trace |
| SyncCoordinator.DriftMeansChanged | src/app/page.tsx:66-74 | `Drift`: the flag holds exactly while children run, a snapshot exists, and the configuration differs from it |
| SyncCoordinator.ToggleDrifts | src/app/page.tsx:66-74 | toggling a vault while running with a snapshot raises the drift flag |
| SyncCoordinator.ToggleBackClearsDrift | src/app/page.tsx:66-74 | toggling the same vault back clears it |
| SyncCoordinator.OtherChildren | src/app/page.tsx:199-201 | the close filter keeps exactly the children of other vaults, and is no longer than its input |
| SyncCoordinator.OtherChildrenAppend | src/app/page.tsx:199-201 | the close filter keeps the children in order and with their multiplicity: filtering a concatenation filters each part |
| SyncCoordinator.OtherChildrenDistinct | src/app/page.tsx:199-201 | filtering keeps at most one child per vault id |
| SyncCoordinator.KillAll | src/app/page.tsx:137-141 | every child is killed, and the kill fails exactly when some child's kill fails |
| SyncCoordinator.Coordinator.constructor | src/app/page.tsx:27-31 | the page starts with the stored configuration, no children, no snapshot, no logs |
| SyncCoordinator.Coordinator.Start | src/app/page.tsx:159-252 | children, launches, snapshot and logs after a start are those of the start trace; a failed start tracks nothing; drift is cleared; at most one process runs per vault |
| SyncCoordinator.Coordinator.Stop | src/app/page.tsx:134-157 | every child is killed; on success the list and the snapshot are cleared and "Stopped" is logged; on a failed kill nothing changes but an error log |
| SyncCoordinator.Coordinator.HandleStartSync | src/app/page.tsx:133-253 | with children running it kills them all and starts nothing, then has the outcome of a stop (cleared and "Stopped" logged, or unchanged with an error log); otherwise it kills nothing and has the outcome of a start (children, launches, snapshot and logs of the start trace, drift cleared) |
| SyncCoordinator.Coordinator.HandleStartSyncAsWritten | src/app/page.tsx:133-163 | as written: a start changes nothing; a stop kills and clears but logs nothing |
| SyncCoordinator.Coordinator.ProcessClosed | src/app/page.tsx:198-207 | the closed vault's children are dropped, the snapshot is cleared when none remain, and an exit is logged; at most one process still runs per vault |
| SyncCoordinator.Coordinator.ProcessClosedAsWritten | src/app/page.tsx:198-207 | as written: the children are filtered and nothing is logged |
| SyncCoordinator.Coordinator.ProcessError | src/app/page.tsx:209-215 | an error event logs one error line under the vault's name |
| SyncCoordinator.Coordinator.ProcessOutput | src/app/page.tsx:217-231 | stdout and stderr data log one info line under the vault's name |
| SyncCoordinator.Coordinator.ToggleVault | src/app/page.tsx:120-128 | the configuration becomes its toggled form |
| SyncCoordinator.Coordinator.SelectDirectory | src/app/page.tsx:76-110 | the configuration becomes the directory-selected form |
| SyncCoordinator.Coordinator.RemoveDirectory | src/app/page.tsx:112-118 | succeeds exactly when there is no configuration or the id has an entry, and then applies the removal; otherwise nothing changes |

## Left out

- Log ids and timestamps (`crypto.randomUUID`, `new Date()`): they are not observable by the core's logic.
- `getColorFromString` and all JSX rendering, buttons, the updater, title bar and tray: user interface only.
- The HTTP calls, file streams, `mkdir` and path joining of the download scripts, and the `url` crate's parsing in `authorize.rs`: an effect is recorded as an action, and URLs arrive parsed.
- `fetch`/`https.get` status handling and `JSON.parse` failures when reading the release: any of them is modelled as the release being `None`.
- The single-target script's `https.get` does not check the download status: a download's failure is the parameter `failing`, whatever its cause.
- A failing `chmodSync`: it is not modelled.
- `IGNORE_SYSTEM`: a constant `false` in the source, modelled as a parameter so that both branches are covered.
- The 4-second pause between spawns, the React render cycle and concurrency: user actions, stdout and error events during the start loop are not interleaved with it.
- `Object.entries` lists integer-like keys first. Vault ids are taken to be non-integer strings, so the entries keep their insertion order.
- Lone surrogates in `JSON.stringify`: strings are treated as sequences of characters that need no such escape.
- The deep copy `JSON.parse(JSON.stringify(configVaults))` taken as the snapshot: the model takes the value itself, which is equal for the configuration types modelled.
- Loading the configuration and the token from the Tauri store, and the account and vaults queries: they are inputs of the coordinator's methods.
- `clear: clearLogs` at `src/app/page.tsx:26` is never called, so it is not modelled.
- FolderName.PresanitizedIsClean: states no trailing whitespace only for names of at most 255 units, because truncation can leave a trailing space (see Findings).
- SyncCoordinator.Coordinator.Start: applies a child's close event during the start loop after the loop, with the same final state (see above).

## Findings

| source | as written | input that shows it | evidently intended | confidence | as-written member | corrected member |
|---|---|---|---|---|---|---|
| src/lib/utils/folder-name.ts:20-24 | edge dots are replaced before the spaces are trimmed, so dots behind a space survive | `" . "` sanitises to `"."` | no name begins or ends with a dot | not executed | FolderName.EdgeDotsSurviveTrim | FolderName.IntendedPresanitizedIsClean |
| src/lib/utils/folder-name.ts:24-38 | the name is trimmed before it is cut to 255 units, so the cut can end in a space | 254 `a`s, a space, then `b` gives a name that ends in a space | the name is trimmed after the cut | not executed | FolderName.TruncationLeavesTrailingSpace | FolderName.IntendedPresanitizedIsClean |
| src/app/page.tsx:26 | `add: addLog` names a member that `useLog` does not return (it returns `addLog`, `src/app/_components/ui-logger.tsx:33`), so `addLog` is `undefined` and each call throws | pressing start with children not running: the handler throws before it spawns anything | `addLog` bound to `useLog().addLog` | not executed | SyncCoordinator.Coordinator.HandleStartSyncAsWritten | SyncCoordinator.Coordinator.HandleStartSync |
