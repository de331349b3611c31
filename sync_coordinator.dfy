/**
 * The sync coordinator of the home page (`src/app/page.tsx`): the start /
 * stop button (`handleStartSync`), the events of the mount processes, the
 * drift flag and the snapshot that goes away with the last process, and the
 * configuration edits.
 *
 * Processes are handles (`nat`). Spawning is an oracle `spawn`: attempt
 * number k (counting from 0 within one start) either throws or yields a
 * handle, and says whether that process closes while the start loop is still
 * going. Which kills throw is a set of handles. The React state is the
 * fields of a `Coordinator`; each effect that reacts to a state change is
 * applied by the method that makes the change.
 */
module SyncCoordinator {
  import opened Wrappers
  import opened LogWindow
  import opened VaultConfig
  import opened ConfigJson

  // ---------------------------------------------------------------------
  // The mount command

  /** JavaScript truthiness of an optional string: present and not empty. */
  predicate Truthy(s: Option<string>) {
    s.Some? && s.value != ""
  }

  /** `[...].filter(Boolean)`: drops the `false` slots and the empty strings. */
  function Compact(slots: seq<Option<string>>): (r: seq<string>)
    ensures |r| <= |slots|
  {
    if slots == [] then []
    else (if Truthy(slots[0]) then [slots[0].value] else []) + Compact(slots[1..])
  }

  /** `:dynbox,vault_id=<id>,access_token=<token>,endpoint='<appUrl>/api':`. */
  function Remote(id: string, token: string, appUrl: string): (r: string)
    ensures r != [] && r[0] == ':'
  {
    assert RemotePrefix[0] == ':';
    RemotePrefix + id + TokenPart + token + EndpointPart + appUrl + ApiSuffix
  }

  const MountVerb: string := "mount"
  const RemotePrefix: string := ":dynbox,vault_id="
  const TokenPart: string := ",access_token="
  const EndpointPart: string := ",endpoint='"
  const ApiSuffix: string := "/api':"
  const Slash: string := "/"
  const AnyMountPoint: string := "*"
  const VolumePrefix: string := "--volname="

  /** `<directory>/<name>` for a truthy directory, `*` otherwise. */
  function MountPoint(directory: Option<string>, name: string): (r: string)
    ensures r != []
  {
    if Truthy(directory) then directory.value + Slash + name else AnyMountPoint
  }

  function VolumeName(name: string): (r: string)
    ensures r != []
  {
    assert |VolumePrefix| == 10;
    VolumePrefix + name
  }

  const CacheMode: string := "--vfs-cache-mode=full"
  const Links: string := "--links"
  const UseCookies: string := "--use-cookies"

  /** The argument slots of `Command.sidecar("bin/rclone-dynbox", [...])`, before the filter. */
  function ArgSlots(id: string, name: string, token: string, appUrl: string, s: Settings): seq<Option<string>> {
    [Some(MountVerb), Some(Remote(id, token, appUrl)), Some(MountPoint(s.directory, name)),
     if Truthy(s.directory) then None else Some(VolumeName(name)),
     Some(CacheMode), Some(Links), Some(UseCookies)]
  }

  /** The mount command's arguments. */
  function MountArgv(id: string, name: string, token: string, appUrl: string, s: Settings): seq<string> {
    Compact(ArgSlots(id, name, token, appUrl, s))
  }

  lemma {:induction false} CompactCons(x: Option<string>, rest: seq<Option<string>>)
    ensures Compact([x] + rest) == (if Truthy(x) then [x.value] else []) + Compact(rest)
  {
    assert ([x] + rest)[0] == x && ([x] + rest)[1..] == rest;
  }

  /** The filter keeps the slots in order: filtering a concatenation filters each part. */
  lemma {:induction false} CompactAppend(a: seq<Option<string>>, b: seq<Option<string>>)
    ensures Compact(a + b) == Compact(a) + Compact(b)
  {
    if a == [] {
      assert a + b == b;
    } else {
      var head: seq<string> := if Truthy(a[0]) then [a[0].value] else [];
      assert a + b == [a[0]] + (a[1..] + b);
      assert a == [a[0]] + a[1..];
      CompactCons(a[0], a[1..] + b);
      CompactCons(a[0], a[1..]);
      CompactAppend(a[1..], b);
      assert head + (Compact(a[1..]) + Compact(b)) == (head + Compact(a[1..])) + Compact(b);
    }
  }

  /** What is kept is exactly the values of the truthy slots. */
  lemma {:induction false} CompactSpec(slots: seq<Option<string>>)
    ensures forall x :: x in Compact(slots) <==> Some(x) in slots && x != ""
  {
    if slots != [] {
      CompactSpec(slots[1..]);
      assert slots == [slots[0]] + slots[1..];
      assert forall o :: o in slots <==> o == slots[0] || o in slots[1..];
    }
  }

  /**
   * The filter only drops the `--volname` slot, and only for a truthy
   * directory: the arguments are `mount`, the remote, the mount point, then
   * `--volname=<name>` exactly when the directory is absent or empty, then
   * the three fixed flags.
   */
  lemma MountArgvShape(id: string, name: string, token: string, appUrl: string, s: Settings)
    ensures MountArgv(id, name, token, appUrl, s)
            == [MountVerb, Remote(id, token, appUrl), MountPoint(s.directory, name)]
               + (if Truthy(s.directory) then [] else [VolumeName(name)])
               + [CacheMode, Links, UseCookies]
  {
    var slots := ArgSlots(id, name, token, appUrl, s);
    var vol := if Truthy(s.directory) then None else Some(VolumeName(name));
    CompactCons(Some(UseCookies), []);
    CompactCons(Some(Links), [Some(UseCookies)]);
    CompactCons(Some(CacheMode), [Some(Links), Some(UseCookies)]);
    CompactCons(vol, [Some(CacheMode), Some(Links), Some(UseCookies)]);
    CompactCons(Some(MountPoint(s.directory, name)), [vol, Some(CacheMode), Some(Links), Some(UseCookies)]);
    CompactCons(Some(Remote(id, token, appUrl)), [Some(MountPoint(s.directory, name)), vol, Some(CacheMode), Some(Links), Some(UseCookies)]);
    CompactCons(Some(MountVerb), slots[1..]);
    assert [Some(MountVerb)] + slots[1..] == slots;
    assert slots[1..] == [Some(Remote(id, token, appUrl)), Some(MountPoint(s.directory, name)), vol, Some(CacheMode), Some(Links), Some(UseCookies)];
  }

  /** A `--volname` flag is none of the other arguments of a mount into a directory. */
  lemma VolumeNameIsNoOther(id: string, name: string, token: string, appUrl: string, directory: string)
    requires directory != ""
    ensures VolumeName(name) !in [MountVerb, Remote(id, token, appUrl), MountPoint(Some(directory), name),
                                  CacheMode, Links, UseCookies]
  {
    var v := VolumeName(name);
    assert v[0] == '-' && v[2] == 'v' && v[3] == 'o' && v[9] == '=';
    assert MountVerb[0] == 'm';
    assert CacheMode[3] == 'f' && Links[2] == 'l' && UseCookies[2] == 'u';
    var point := MountPoint(Some(directory), name);
    if |point| == |v| {
      assert point[|directory|] == '/';
    }
  }

  /** `--volname` is passed exactly when the directory is falsy, the empty string included. */
  lemma VolumeNameIffNoDirectory(id: string, name: string, token: string, appUrl: string, s: Settings)
    ensures VolumeName(name) in MountArgv(id, name, token, appUrl, s) <==> !Truthy(s.directory)
    ensures |MountArgv(id, name, token, appUrl, s)| == if Truthy(s.directory) then 6 else 7
    ensures MountArgv(id, name, token, appUrl, s)[2]
            == if Truthy(s.directory) then s.directory.value + "/" + name else "*"
  {
    MountArgvShape(id, name, token, appUrl, s);
    if Truthy(s.directory) {
      VolumeNameIsNoOther(id, name, token, appUrl, s.directory.value);
      assert MountArgv(id, name, token, appUrl, s)
             == [MountVerb, Remote(id, token, appUrl), MountPoint(s.directory, name), CacheMode, Links, UseCookies];
    } else {
      assert MountArgv(id, name, token, appUrl, s)[3] == VolumeName(name);
    }
  }

  // ---------------------------------------------------------------------
  // Which vaults a start mounts

  /** A configuration entry that a start would mount, with the vault's name. */
  datatype Mount = Mount(id: string, name: string, settings: Settings)

  /**
   * Whether the loop body mounts the entry: it must be enabled, its id must
   * be non-empty and name a vault of the account with a non-empty name, and
   * there must be a non-empty token. Skipped entries only reach the console.
   */
  function Candidate(e: Entry, token: Option<string>, vaults: seq<Vault>): Option<Mount> {
    if !e.settings.enabled then None
    else
      var vault := FindVault(vaults, e.id);
      if vault.None? || vault.value.name == "" || e.id == "" || !Truthy(token) then None
      else Some(Mount(e.id, vault.value.name, e.settings))
  }

  /** The entries a start mounts, in configuration order. */
  function Eligible(c: Config, token: Option<string>, vaults: seq<Vault>): (r: seq<Mount>)
    ensures |r| <= |c|
  {
    if c == [] then []
    else
      var m := Candidate(c[|c| - 1], token, vaults);
      Eligible(c[..|c| - 1], token, vaults) + (if m.Some? then [m.value] else [])
  }

  /** The eligible entries of a concatenation are those of each part, in order. */
  lemma {:induction false} EligibleAppend(a: Config, b: Config, token: Option<string>, vaults: seq<Vault>)
    ensures Eligible(a + b, token, vaults) == Eligible(a, token, vaults) + Eligible(b, token, vaults)
    decreases |b|
  {
    if b == [] {
      assert a + b == a;
    } else {
      var b' := b[..|b| - 1];
      assert (a + b)[..|a + b| - 1] == a + b';
      assert (a + b)[|a + b| - 1] == b[|b| - 1];
      EligibleAppend(a, b', token, vaults);
    }
  }

  /**
   * An entry is mounted exactly when it is enabled, its id is non-empty and
   * names a vault with a non-empty name, and a non-empty token is present.
   */
  lemma {:induction false} EligibleMembers(c: Config, token: Option<string>, vaults: seq<Vault>, m: Mount)
    ensures m in Eligible(c, token, vaults) <==>
              exists e :: e in c && Candidate(e, token, vaults) == Some(m)
    decreases |c|
  {
    if c != [] {
      var init := c[..|c| - 1];
      EligibleMembers(init, token, vaults, m);
      assert c == init + [c[|c| - 1]];
      assert forall e :: e in c <==> e in init || e == c[|c| - 1];
    }
  }

  /** No two mounts are for the same vault id. */
  predicate DistinctMounts(el: seq<Mount>) {
    forall i, j :: 0 <= i < j < |el| ==> el[i].id != el[j].id
  }

  /** With unique configuration keys, no vault is mounted twice. */
  lemma {:induction false} EligibleDistinct(c: Config, token: Option<string>, vaults: seq<Vault>)
    requires UniqueIds(c)
    ensures DistinctMounts(Eligible(c, token, vaults))
    decreases |c|
  {
    if c != [] {
      var init := c[..|c| - 1];
      var last := c[|c| - 1];
      assert UniqueIds(init) by {
        forall i, j | 0 <= i < j < |init| ensures init[i].id != init[j].id {
          assert init[i] == c[i] && init[j] == c[j];
        }
      }
      EligibleDistinct(init, token, vaults);
      var m := Candidate(last, token, vaults);
      if m.Some? {
        CandidateSpec(last, token, vaults);
        var el := Eligible(init, token, vaults);
        forall k | 0 <= k < |el| ensures el[k].id != m.value.id {
          EligibleMembers(init, token, vaults, el[k]);
          var e :| e in init && Candidate(e, token, vaults) == Some(el[k]);
          CandidateSpec(e, token, vaults);
          var i :| 0 <= i < |init| && init[i] == e;
          assert c[i] == e;
        }
      }
    }
  }

  lemma CandidateSpec(e: Entry, token: Option<string>, vaults: seq<Vault>)
    ensures Candidate(e, token, vaults).Some? <==>
              && e.settings.enabled && e.id != "" && Truthy(token)
              && FindVault(vaults, e.id).Some? && FindVault(vaults, e.id).value.name != ""
    ensures Candidate(e, token, vaults).Some? ==>
              Candidate(e, token, vaults).value == Mount(e.id, FindVault(vaults, e.id).value.name, e.settings)
  {
  }

  // ---------------------------------------------------------------------
  // The start loop

  /** A child process the page tracks. */
  datatype Child = Child(vaultId: string, process: nat)

  /** What one `command.spawn()` does: throw, or start a process that may close before the loop ends. */
  datatype Spawn = SpawnFailed | Spawned(process: nat, closesDuringStart: bool)

  const SystemGroup: string := "System"
  const StartingMessage: string := "Starting sync processes"
  const StoppedMessage: string := "Stopped sync processes"
  const KillErrorMessage: string := "Error killing processes"
  const StartErrorMessage: string := "Error starting sync processes"
  const ExitedMessage: string := "Process exited"

  /** The start loop so far: the children spawned, their commands, the log lines added, whether one closed, whether a spawn threw. */
  datatype StartProgress = StartProgress(children: seq<Child>, launches: seq<seq<string>>, notes: seq<Log>,
                                         closed: bool, failed: bool)

  /** One iteration of the start loop over the configuration entries. */
  function StartStep(p: StartProgress, e: Entry, token: Option<string>, vaults: seq<Vault>, appUrl: string,
                     spawn: nat -> Spawn): StartProgress
  {
    if p.failed then p
    else match Candidate(e, token, vaults)
      case None => p
      case Some(m) =>
        match spawn(|p.children|)
        case SpawnFailed => p.(failed := true)
        case Spawned(process, closes) =>
          StartProgress(p.children + [Child(m.id, process)],
                        p.launches + [MountArgv(m.id, m.name, token.value, appUrl, m.settings)],
                        p.notes + (if closes then [Log(m.name, ExitedMessage, Info)] else []),
                        p.closed || closes, false)
  }

  /** The start loop over the first entries of the configuration. */
  function StartTrace(c: Config, token: Option<string>, vaults: seq<Vault>, appUrl: string,
                      spawn: nat -> Spawn): StartProgress
  {
    if c == [] then StartProgress([], [], [], false, false)
    else StartStep(StartTrace(c[..|c| - 1], token, vaults, appUrl, spawn), c[|c| - 1], token, vaults, appUrl, spawn)
  }

  /** The spawn started a process that closed while the start loop was still going. */
  predicate ClosesEarly(s: Spawn) {
    s.Spawned? && s.closesDuringStart
  }

  /** Spawns number 0 to n-1 all succeed. */
  predicate SpawnsSucceed(spawn: nat -> Spawn, n: nat) {
    forall j :: 0 <= j < n ==> spawn(j).Spawned?
  }

  /**
   * The children of a start are a prefix of the eligible entries `el`, all
   * of them unless a spawn threw, the j-th with the process spawn attempt j
   * returned; a child exists only with a token.
   */
  predicate ChildrenMatch(p: StartProgress, el: seq<Mount>, token: Option<string>, spawn: nat -> Spawn) {
    && |p.children| == |p.launches| <= |el|
    && (!p.failed ==> |p.children| == |el|)
    && (p.children != [] ==> Truthy(token))
    && SpawnsSucceed(spawn, |p.children|)
    && forall j :: 0 <= j < |p.children| ==> p.children[j] == Child(el[j].id, spawn(j).process)
  }

  /** The j-th command launched is the mount command of the j-th eligible entry, with the token. */
  predicate LaunchesMatch(p: StartProgress, el: seq<Mount>, token: Option<string>, appUrl: string) {
    forall j :: 0 <= j < |p.launches| ==>
      && j < |el| && Truthy(token)
      && p.launches[j] == MountArgv(el[j].id, el[j].name, token.value, appUrl, el[j].settings)
  }

  /** The entries eligible after one more configuration entry. */
  function EligibleStep(el: seq<Mount>, e: Entry, token: Option<string>, vaults: seq<Vault>): seq<Mount> {
    var m := Candidate(e, token, vaults);
    el + (if m.Some? then [m.value] else [])
  }

  lemma ChildrenStep(q: StartProgress, e: Entry, el: seq<Mount>, token: Option<string>, vaults: seq<Vault>,
                     appUrl: string, spawn: nat -> Spawn)
    requires ChildrenMatch(q, el, token, spawn)
    ensures ChildrenMatch(StartStep(q, e, token, vaults, appUrl, spawn), EligibleStep(el, e, token, vaults), token, spawn)
  {
    var p := StartStep(q, e, token, vaults, appUrl, spawn);
    var el' := EligibleStep(el, e, token, vaults);
    var m := Candidate(e, token, vaults);
    if !q.failed && m.Some? && spawn(|q.children|).Spawned? {
      CandidateSpec(e, token, vaults);
      var k := |q.children|;
      assert p.children == q.children + [Child(m.value.id, spawn(k).process)];
      assert el'[k] == m.value;
      forall j | 0 <= j < |p.children|
        ensures p.children[j] == Child(el'[j].id, spawn(j).process)
      {
        if j < k { assert p.children[j] == q.children[j] && el'[j] == el[j]; }
      }
    } else {
      forall j | 0 <= j < |p.children|
        ensures el'[j] == el[j]
      {
      }
    }
  }

  lemma LaunchesStep(q: StartProgress, e: Entry, el: seq<Mount>, token: Option<string>, vaults: seq<Vault>,
                     appUrl: string, spawn: nat -> Spawn)
    requires ChildrenMatch(q, el, token, spawn) && LaunchesMatch(q, el, token, appUrl)
    ensures LaunchesMatch(StartStep(q, e, token, vaults, appUrl, spawn), EligibleStep(el, e, token, vaults), token, appUrl)
  {
    var p := StartStep(q, e, token, vaults, appUrl, spawn);
    var el' := EligibleStep(el, e, token, vaults);
    var m := Candidate(e, token, vaults);
    if !q.failed && m.Some? && spawn(|q.children|).Spawned? {
      CandidateSpec(e, token, vaults);
      var k := |q.launches|;
      assert p.launches == q.launches + [MountArgv(m.value.id, m.value.name, token.value, appUrl, m.value.settings)];
      assert el'[k] == m.value;
      forall j | 0 <= j < |p.launches|
        ensures p.launches[j] == MountArgv(el'[j].id, el'[j].name, token.value, appUrl, el'[j].settings)
      {
        if j < k { assert p.launches[j] == q.launches[j] && el'[j] == el[j]; }
      }
    } else {
      forall j | 0 <= j < |p.launches|
        ensures el'[j] == el[j]
      {
      }
    }
  }

  /** One more entry: the trace and the eligible list both take one step. */
  lemma StartTraceUnfold(c: Config, token: Option<string>, vaults: seq<Vault>, appUrl: string, spawn: nat -> Spawn)
    requires c != []
    ensures StartTrace(c, token, vaults, appUrl, spawn)
            == StartStep(StartTrace(c[..|c| - 1], token, vaults, appUrl, spawn), c[|c| - 1], token, vaults, appUrl, spawn)
    ensures Eligible(c, token, vaults) == EligibleStep(Eligible(c[..|c| - 1], token, vaults), c[|c| - 1], token, vaults)
  {
  }

  /**
   * The loop spawns the eligible entries one at a time, in configuration
   * order, giving attempt j to the j-th of them: the children are the
   * spawned prefix of the eligible entries, all of them when no spawn throws.
   */
  lemma {:induction false} StartTraceChildren(c: Config, token: Option<string>, vaults: seq<Vault>, appUrl: string,
                                              spawn: nat -> Spawn)
    ensures ChildrenMatch(StartTrace(c, token, vaults, appUrl, spawn), Eligible(c, token, vaults), token, spawn)
    decreases |c|
  {
    if c != [] {
      var init := c[..|c| - 1];
      StartTraceChildren(init, token, vaults, appUrl, spawn);
      StartTraceUnfold(c, token, vaults, appUrl, spawn);
      ChildrenStep(StartTrace(init, token, vaults, appUrl, spawn), c[|c| - 1], Eligible(init, token, vaults),
                   token, vaults, appUrl, spawn);
    }
  }

  /** No two children of a start with unique configuration keys are for the same vault. */
  lemma StartChildrenDistinct(c: Config, token: Option<string>, vaults: seq<Vault>, appUrl: string,
                              spawn: nat -> Spawn)
    requires UniqueIds(c)
    ensures DistinctChildren(StartTrace(c, token, vaults, appUrl, spawn).children)
  {
    StartTraceChildren(c, token, vaults, appUrl, spawn);
    EligibleDistinct(c, token, vaults);
  }

  /** The command of the j-th process is built from the j-th eligible entry's settings and the token. */
  lemma {:induction false} StartTraceLaunches(c: Config, token: Option<string>, vaults: seq<Vault>, appUrl: string,
                                              spawn: nat -> Spawn)
    ensures LaunchesMatch(StartTrace(c, token, vaults, appUrl, spawn), Eligible(c, token, vaults), token, appUrl)
    decreases |c|
  {
    if c != [] {
      var init := c[..|c| - 1];
      StartTraceLaunches(init, token, vaults, appUrl, spawn);
      StartTraceChildren(init, token, vaults, appUrl, spawn);
      StartTraceUnfold(c, token, vaults, appUrl, spawn);
      LaunchesStep(StartTrace(init, token, vaults, appUrl, spawn), c[|c| - 1], Eligible(init, token, vaults),
                   token, vaults, appUrl, spawn);
    }
  }

  /** The loop ends early exactly when a spawn throws: then it is the spawn after the last child. */
  lemma {:induction false} StartTraceFailure(c: Config, token: Option<string>, vaults: seq<Vault>, appUrl: string,
                                             spawn: nat -> Spawn)
    ensures var p := StartTrace(c, token, vaults, appUrl, spawn);
            && (p.failed <==> |p.children| < |Eligible(c, token, vaults)|)
            && (p.failed ==> spawn(|p.children|).SpawnFailed?)
    decreases |c|
  {
    if c != [] {
      var init := c[..|c| - 1];
      StartTraceFailure(init, token, vaults, appUrl, spawn);
      StartTraceChildren(init, token, vaults, appUrl, spawn);
      StartTraceChildren(c, token, vaults, appUrl, spawn);
    }
  }

  /**
   * A process's log line appears exactly when it closed during the loop, and
   * the loop adds no other line.
   */
  lemma {:induction false} StartTraceCloses(c: Config, token: Option<string>, vaults: seq<Vault>, appUrl: string,
                                            spawn: nat -> Spawn)
    ensures var p := StartTrace(c, token, vaults, appUrl, spawn);
            && (p.closed <==> exists j :: 0 <= j < |p.children| && ClosesEarly(spawn(j)))
            && (forall x :: x in p.notes ==> x.message == ExitedMessage && x.kind == Info)
            && (!p.closed ==> p.notes == [])
    decreases |c|
  {
    if c != [] {
      var init := c[..|c| - 1];
      StartTraceCloses(init, token, vaults, appUrl, spawn);
      var q := StartTrace(init, token, vaults, appUrl, spawn);
      var m := Candidate(c[|c| - 1], token, vaults);
      if !q.failed && m.Some? && spawn(|q.children|).Spawned? {
        var p := StartTrace(c, token, vaults, appUrl, spawn);
        var k := |q.children|;
        assert p.children == q.children + [Child(m.value.id, spawn(k).process)];
        assert p.closed ==> exists j :: 0 <= j < |p.children| && ClosesEarly(spawn(j)) by {
          if p.closed && !q.closed {
            assert spawn(k).closesDuringStart;
          }
        }
        assert forall x :: x in p.notes ==> x in q.notes || (x.message == ExitedMessage && x.kind == Info);
      }
    }
  }

  /**
   * With every spawn succeeding, a start mounts exactly the eligible entries,
   * in configuration order.
   */
  lemma StartMountsEligible(c: Config, token: Option<string>, vaults: seq<Vault>, appUrl: string,
                            spawn: nat -> Spawn)
    requires SpawnsSucceed(spawn, |c|)
    ensures var p := StartTrace(c, token, vaults, appUrl, spawn);
            var el := Eligible(c, token, vaults);
            && !p.failed
            && p.children == seq(|el|, j requires 0 <= j < |el| => Child(el[j].id, spawn(j).process))
  {
    StartTraceChildren(c, token, vaults, appUrl, spawn);
    StartTraceFailure(c, token, vaults, appUrl, spawn);
    var k := |StartTrace(c, token, vaults, appUrl, spawn).children|;
    assert k < |c| ==> spawn(k).Spawned?;
  }

  // ---------------------------------------------------------------------
  // The drift flag

  /**
   * The `useEffect` watching the configuration, the snapshot and the number
   * of running processes: drift is flagged while processes run from a
   * snapshot and the serialised configuration differs from it.
   */
  function Drift(config: Option<Config>, snapshot: Option<Config>, runningCount: nat): bool {
    runningCount > 0 && snapshot.Some? && Stringify(config) != Stringify(snapshot)
  }

  /** The serialised comparison is exactly structural inequality, entry order included. */
  lemma DriftMeansChanged(config: Option<Config>, snapshot: Option<Config>, runningCount: nat)
    ensures Drift(config, snapshot, runningCount) <==> runningCount > 0 && snapshot.Some? && config != snapshot
  {
    StringifyInjective(config, snapshot);
  }

  /** Toggling a vault always changes the configuration, so it is always flagged while running from a snapshot of it. */
  lemma ToggleDrifts(c: Config, id: string, runningCount: nat)
    requires runningCount > 0
    ensures Drift(Some(Toggled(Some(c), id)), Some(c), runningCount)
  {
    DriftMeansChanged(Some(Toggled(Some(c), id)), Some(c), runningCount);
    ToggledSpec(Some(c), id, id);
  }

  /** Toggling a configured vault back clears the flag: the configuration is the snapshot again. */
  lemma ToggleBackClearsDrift(c: Config, id: string, runningCount: nat)
    requires Lookup(c, id).Some?
    ensures !Drift(Some(Toggled(Some(Toggled(Some(c), id)), id)), Some(c), runningCount)
  {
    ToggledTwice(c, id);
    DriftMeansChanged(Some(Toggled(Some(Toggled(Some(c), id)), id)), Some(c), runningCount);
  }

  // ---------------------------------------------------------------------
  // The page state

  /** `prev.filter(child => child.vaultId !== vaultId)`. */
  function OtherChildren(running: seq<Child>, vaultId: string): (r: seq<Child>)
    ensures |r| <= |running|
    ensures forall x :: x in r <==> x in running && x.vaultId != vaultId
  {
    if running == [] then []
    else (if running[0].vaultId != vaultId then [running[0]] else []) + OtherChildren(running[1..], vaultId)
  }

  /** The filter keeps the children in order: filtering a concatenation filters each part. */
  lemma {:induction false} OtherChildrenAppend(a: seq<Child>, b: seq<Child>, vaultId: string)
    ensures OtherChildren(a + b, vaultId) == OtherChildren(a, vaultId) + OtherChildren(b, vaultId)
  {
    if a == [] {
      assert a + b == b;
    } else {
      assert (a + b)[0] == a[0] && (a + b)[1..] == a[1..] + b;
      OtherChildrenAppend(a[1..], b, vaultId);
      var head := if a[0].vaultId != vaultId then [a[0]] else [];
      assert head + (OtherChildren(a[1..], vaultId) + OtherChildren(b, vaultId))
             == (head + OtherChildren(a[1..], vaultId)) + OtherChildren(b, vaultId);
    }
  }

  /** At most one running process per vault id. */
  predicate DistinctChildren(running: seq<Child>) {
    forall i, j :: 0 <= i < j < |running| ==> running[i].vaultId != running[j].vaultId
  }

  /** Filtering keeps the children's vault ids distinct. */
  lemma {:induction false} OtherChildrenDistinct(running: seq<Child>, vaultId: string)
    requires DistinctChildren(running)
    ensures DistinctChildren(OtherChildren(running, vaultId))
  {
    if running != [] {
      var rest := running[1..];
      assert DistinctChildren(rest) by {
        forall i, j | 0 <= i < j < |rest| ensures rest[i].vaultId != rest[j].vaultId {
          assert rest[i] == running[i + 1] && rest[j] == running[j + 1];
        }
      }
      OtherChildrenDistinct(rest, vaultId);
      var tail := OtherChildren(rest, vaultId);
      forall k | 0 <= k < |tail| ensures tail[k].vaultId != running[0].vaultId {
        assert tail[k] in rest;
        var i :| 0 <= i < |rest| && rest[i] == tail[k];
        assert running[i + 1] == tail[k];
      }
    }
  }

  function Processes(running: seq<Child>): (r: seq<nat>)
    ensures |r| == |running|
    ensures forall j :: 0 <= j < |running| ==> r[j] == running[j].process
  {
    if running == [] then [] else [running[0].process] + Processes(running[1..])
  }

  /** The snapshot-clearing effect, applied after the running list is replaced. */
  function AfterRunningChange(running: seq<Child>, snapshot: Option<Config>): Option<Config> {
    if running == [] then None else snapshot
  }

  class Coordinator {
    var config: Option<Config>
    var running: seq<Child>
    var snapshot: Option<Config>
    var logs: seq<Log>

    /**
     * No snapshot outlives the processes, configuration keys are unique,
     * and at most one process runs per vault.
     */
    ghost predicate Valid()
      reads this
    {
      && (running == [] ==> snapshot.None?)
      && (config.Some? ==> UniqueIds(config.value))
      && DistinctChildren(running)
    }

    constructor (stored: Option<Config>)
      requires stored.Some? ==> UniqueIds(stored.value)
      ensures config == stored && running == [] && snapshot.None? && logs == []
      ensures Valid()
    {
      config := stored;
      running := [];
      snapshot := None;
      logs := [];
    }

    /** `configChanged`, as the drift effect keeps it. */
    function ConfigChanged(): bool
      reads this
    {
      Drift(config, snapshot, |running|)
    }

    /**
     * The start branch of `handleStartSync`. It logs the start, takes the
     * snapshot, then runs the loop over the entries. An unset configuration
     * is `null` in the store hook: its snapshot is `null`, the loop has no
     * entry, and the empty running list keeps the snapshot cleared, so only
     * the start is logged. `launched` holds the
     * commands of the processes started. The close listener of a process
     * that exits during the loop filters the (still empty) running list, logs
     * the exit and so makes the snapshot-clearing effect drop the snapshot;
     * the loop's catch logs the error and drops the snapshot.
     */
    method Start(token: Option<string>, vaults: seq<Vault>, appUrl: string, spawn: nat -> Spawn)
        returns (launched: seq<seq<string>>)
      requires Valid() && running == []
      modifies this
      ensures Valid() && config == old(config)
      ensures !ConfigChanged()
      ensures old(config).None? ==>
                && launched == [] && running == [] && snapshot == old(snapshot)
                && logs == Appended(old(logs), Log(SystemGroup, StartingMessage, Info))
      ensures old(config).Some? ==>
                var p := StartTrace(old(config).value, token, vaults, appUrl, spawn);
                && launched == p.launches
                && running == (if p.failed then [] else p.children)
                && snapshot == (if p.failed || p.closed || p.children == [] then None else old(config))
                && logs == AppendedAll(old(logs), [Log(SystemGroup, StartingMessage, Info)] + p.notes
                                                  + (if p.failed then [Log(SystemGroup, StartErrorMessage, Error)] else []))
    {
      var starting := Log(SystemGroup, StartingMessage, Info);
      logs := Appended(logs, starting);
      launched := [];
      if config.None? {
        return;
      }
      snapshot := config;
      var p := StartLoop(config.value, token, vaults, appUrl, spawn);
      launched := p.launches;
      logs := AppendedAll(logs, p.notes);
      if p.closed {
        snapshot := AfterRunningChange(running, snapshot);
      }
      var error := Log(SystemGroup, StartErrorMessage, Error);
      StartLogs(old(logs), starting, p.notes, p.failed, error);
      if p.failed {
        logs := Appended(logs, error);
        snapshot := None;
      } else {
        StartChildrenDistinct(config.value, token, vaults, appUrl, spawn);
        running := p.children;
        snapshot := AfterRunningChange(running, snapshot);
      }
    }

    /**
     * The stop branch of `handleStartSync`: every process is killed
     * (`killed`, in order); if all kills succeed the list and snapshot are
     * cleared and the stop is logged, otherwise only the error is logged.
     */
    method Stop(killFails: set<nat>) returns (killed: seq<nat>)
      requires Valid() && running != []
      modifies this
      ensures Valid() && config == old(config)
      ensures killed == Processes(old(running))
      ensures !SomeKillFails(old(running), killFails) ==>
                && running == [] && snapshot.None?
                && logs == Appended(old(logs), Log(SystemGroup, StoppedMessage, Info))
      ensures SomeKillFails(old(running), killFails) ==>
                && running == old(running) && snapshot == old(snapshot)
                && logs == Appended(old(logs), Log(SystemGroup, KillErrorMessage, Error))
    {
      var failed;
      killed, failed := KillAll(running, killFails);
      if !failed {
        running := [];
        snapshot := AfterRunningChange(running, None);
        logs := Appended(logs, Log(SystemGroup, StoppedMessage, Info));
      } else {
        logs := Appended(logs, Log(SystemGroup, KillErrorMessage, Error));
      }
    }

    /**
     * `handleStartSync`: stop when processes are running (the outcome of
     * `Stop`), start otherwise (the outcome of `Start`).
     */
    method HandleStartSync(token: Option<string>, vaults: seq<Vault>, appUrl: string, spawn: nat -> Spawn,
                           killFails: set<nat>)
        returns (launched: seq<seq<string>>, killed: seq<nat>)
      requires Valid()
      modifies this
      ensures Valid() && config == old(config)
      ensures old(running) != [] ==> launched == [] && killed == Processes(old(running))
      ensures old(running) != [] && !SomeKillFails(old(running), killFails) ==>
                && running == [] && snapshot.None?
                && logs == Appended(old(logs), Log(SystemGroup, StoppedMessage, Info))
      ensures old(running) != [] && SomeKillFails(old(running), killFails) ==>
                && running == old(running) && snapshot == old(snapshot)
                && logs == Appended(old(logs), Log(SystemGroup, KillErrorMessage, Error))
      ensures old(running) == [] ==> killed == [] && !ConfigChanged()
      ensures old(running) == [] && old(config).None? ==>
                && launched == [] && running == [] && snapshot == old(snapshot)
                && logs == Appended(old(logs), Log(SystemGroup, StartingMessage, Info))
      ensures old(running) == [] && old(config).Some? ==>
                var p := StartTrace(old(config).value, token, vaults, appUrl, spawn);
                && launched == p.launches
                && running == (if p.failed then [] else p.children)
                && snapshot == (if p.failed || p.closed || p.children == [] then None else old(config))
                && logs == AppendedAll(old(logs), [Log(SystemGroup, StartingMessage, Info)] + p.notes
                                                  + (if p.failed then [Log(SystemGroup, StartErrorMessage, Error)] else []))
    {
      if |running| > 0 {
        killed := Stop(killFails);
        launched := [];
      } else {
        launched := Start(token, vaults, appUrl, spawn);
        killed := [];
      }
    }

    /** The `close` listener of the process mounting `vaultId` as `name`. */
    method ProcessClosed(vaultId: string, name: string)
      requires Valid()
      modifies this
      ensures Valid() && config == old(config)
      ensures running == OtherChildren(old(running), vaultId)
      ensures snapshot == if running == [] then None else old(snapshot)
      ensures logs == Appended(old(logs), Log(name, ExitedMessage, Info))
    {
      OtherChildrenDistinct(running, vaultId);
      running := OtherChildren(running, vaultId);
      logs := Appended(logs, Log(name, ExitedMessage, Info));
      snapshot := AfterRunningChange(running, snapshot);
    }

    /**
     * `handleStartSync` as written. The page binds `addLog` to the member
     * `add` of what `useLog()` returns, but that object holds only `logs`
     * and `addLog` (`ui-logger.tsx`, line 33), so the page's `addLog` is
     * `undefined` and every `addLog(...)` call throws. A start then throws at its first
     * statement and changes nothing; a stop kills every process, clears the
     * list and the snapshot when all kills succeed, and throws where it
     * would log, in the `try` and again in the `catch`.
     */
    method HandleStartSyncAsWritten(killFails: set<nat>) returns (launched: seq<seq<string>>, killed: seq<nat>)
      requires Valid()
      modifies this
      ensures Valid() && config == old(config) && logs == old(logs) && launched == []
      ensures old(running) == [] ==> killed == [] && running == [] && snapshot == old(snapshot)
      ensures old(running) != [] ==> killed == Processes(old(running))
      ensures old(running) != [] && !SomeKillFails(old(running), killFails) ==> running == [] && snapshot.None?
      ensures SomeKillFails(old(running), killFails) ==> running == old(running) && snapshot == old(snapshot)
    {
      launched := [];
      killed := [];
      if |running| > 0 {
        var failed;
        killed, failed := KillAll(running, killFails);
        if !failed {
          running := [];
          snapshot := AfterRunningChange(running, None);
        }
      }
    }

    /** The `close` listener as written: the list is filtered, then the `addLog` call throws. */
    method ProcessClosedAsWritten(vaultId: string)
      requires Valid()
      modifies this
      ensures Valid() && config == old(config) && logs == old(logs)
      ensures running == OtherChildren(old(running), vaultId)
      ensures snapshot == if running == [] then None else old(snapshot)
    {
      OtherChildrenDistinct(running, vaultId);
      running := OtherChildren(running, vaultId);
      snapshot := AfterRunningChange(running, snapshot);
    }

    /** The `error` listener: the error is logged under the vault's name. */
    method ProcessError(name: string, message: string)
      modifies this
      ensures logs == Appended(old(logs), Log(name, message, Error))
      ensures config == old(config) && running == old(running) && snapshot == old(snapshot)
    {
      logs := Appended(logs, Log(name, message, Error));
    }

    /** The `stdout` and `stderr` listeners: the data is logged under the vault's name. */
    method ProcessOutput(name: string, data: string)
      modifies this
      ensures logs == Appended(old(logs), Log(name, data, Info))
      ensures config == old(config) && running == old(running) && snapshot == old(snapshot)
    {
      logs := Appended(logs, Log(name, data, Info));
    }

    /** `handleToggleVault`. */
    method ToggleVault(id: string)
      requires Valid()
      modifies this
      ensures Valid()
      ensures config == Some(Toggled(old(config), id))
      ensures running == old(running) && snapshot == old(snapshot) && logs == old(logs)
    {
      var current := Lookup(OrEmpty(config), id);
      var directory := if current.Some? then current.value.directory else None;
      var enabled := current.Some? && current.value.enabled;
      if config.Some? {
        PutUnique(config.value, id, Settings(directory, !enabled));
      }
      config := Some(Put(OrEmpty(config), id, Settings(directory, !enabled)));
    }

    /** `handleDirectorySelect`, with the folder dialog's answer `picked`. */
    method SelectDirectory(vaults: seq<Vault>, id: string, asVolume: bool, picked: Option<string>)
      requires Valid()
      modifies this
      ensures Valid()
      ensures config == DirectorySelected(old(config), vaults, id, asVolume, picked)
      ensures running == old(running) && snapshot == old(snapshot) && logs == old(logs)
    {
      var before := config;
      if FindVault(vaults, id).None? {
        return;
      }
      if asVolume {
        if before.Some? { PutUnique(before.value, id, Settings(None, true)); }
        config := Some(Put(OrEmpty(before), id, Settings(None, true)));
      }
      if picked.Some? && picked.value != "" {
        var s := Settings(Some(ForwardSlashes(picked.value)), true);
        if before.Some? { PutUnique(before.value, id, s); }
        config := Some(Put(OrEmpty(before), id, s));
      }
    }

    /** `handleRemoveDirectory`; `ok` is false when the vault is absent and the handler throws. */
    method RemoveDirectory(id: string) returns (ok: bool)
      requires Valid()
      modifies this
      ensures Valid()
      ensures ok <==> old(config).None? || Lookup(old(config).value, id).Some?
      ensures old(config).Some? && ok ==> config == DirectoryRemoved(old(config), id)
      ensures old(config).None? || !ok ==> config == old(config)
      ensures running == old(running) && snapshot == old(snapshot) && logs == old(logs)
    {
      ok := true;
      if config.None? {
        return;
      }
      var c := config.value;
      var current := Lookup(c, id);
      if current.None? {
        ok := false;
        return;
      }
      DirectoryRemovedSpec(c, id, id);
      config := Some(Without(c, id) + [Entry(id, Settings(None, current.value.enabled))]);
    }
  }

  /** Some process's kill throws, which rejects the `Promise.all` of the kills. */
  predicate SomeKillFails(running: seq<Child>, killFails: set<nat>) {
    exists j :: 0 <= j < |running| && running[j].process in killFails
  }

  /**
   * `Promise.all(runningChildren.map(child => child.process.kill()))`: every
   * process is killed, in order, and the whole fails when one kill does.
   */
  method KillAll(running: seq<Child>, killFails: set<nat>) returns (killed: seq<nat>, failed: bool)
    ensures killed == Processes(running)
    ensures failed <==> SomeKillFails(running, killFails)
  {
    killed := [];
    failed := false;
    var i := 0;
    while i < |running|
      invariant 0 <= i <= |running|
      invariant killed == Processes(running[..i])
      invariant failed <==> SomeKillFails(running[..i], killFails)
    {
      assert running[..i + 1] == running[..i] + [running[i]];
      ProcessesSnoc(running[..i], running[i]);
      assert SomeKillFails(running[..i + 1], killFails) <==>
             SomeKillFails(running[..i], killFails) || running[i].process in killFails by {
        assert forall j :: 0 <= j < i ==> running[..i + 1][j] == running[..i][j];
        assert running[..i + 1][i] == running[i];
      }
      failed := failed || running[i].process in killFails;
      killed := killed + [running[i].process];
      i := i + 1;
    }
    assert running[..i] == running;
  }

  /** The loop of the start branch, over the entries of the configuration `c`. */
  method StartLoop(c: Config, token: Option<string>, vaults: seq<Vault>, appUrl: string, spawn: nat -> Spawn)
      returns (p: StartProgress)
    ensures p == StartTrace(c, token, vaults, appUrl, spawn)
  {
    var children: seq<Child> := [];
    var launched: seq<seq<string>> := [];
    var notes: seq<Log> := [];
    var closed := false;
    var failed := false;
    var i := 0;
    while i < |c| && !failed
      invariant 0 <= i <= |c|
      invariant StartTrace(c[..i], token, vaults, appUrl, spawn)
                == StartProgress(children, launched, notes, closed, failed)
      invariant failed ==> StartTrace(c, token, vaults, appUrl, spawn) == StartTrace(c[..i], token, vaults, appUrl, spawn)
    {
      ghost var before := StartProgress(children, launched, notes, closed, failed);
      StartTraceSnoc(c, i, token, vaults, appUrl, spawn);
      var m := Candidate(c[i], token, vaults);
      if m.Some? {
        var outcome := spawn(|children|);
        if outcome.SpawnFailed? {
          failed := true;
          TraceStaysFailed(c, i + 1, token, vaults, appUrl, spawn);
        } else {
          children := children + [Child(m.value.id, outcome.process)];
          launched := launched + [MountArgv(m.value.id, m.value.name, token.value, appUrl, m.value.settings)];
          if outcome.closesDuringStart {
            notes := notes + [Log(m.value.name, ExitedMessage, Info)];
            closed := true;
          }
        }
      }
      assert StartProgress(children, launched, notes, closed, failed)
             == StartStep(before, c[i], token, vaults, appUrl, spawn);
      i := i + 1;
    }
    if !failed {
      assert c[..i] == c;
    }
    p := StartProgress(children, launched, notes, closed, failed);
  }

  lemma {:induction false} ProcessesSnoc(running: seq<Child>, x: Child)
    ensures Processes(running + [x]) == Processes(running) + [x.process]
  {
    var r := Processes(running + [x]);
    assert r == Processes(running) + [x.process];
  }

  lemma {:induction false} AppendedAllSnoc(logs: seq<Log>, entries: seq<Log>, x: Log)
    ensures AppendedAll(logs, entries + [x]) == Appended(AppendedAll(logs, entries), x)
    decreases |entries|
  {
    if entries == [] {
      assert entries + [x] == [x] && [x][1..] == [];
    } else {
      assert (entries + [x])[0] == entries[0] && (entries + [x])[1..] == entries[1..] + [x];
      AppendedAllSnoc(Appended(logs, entries[0]), entries[1..], x);
    }
  }

  /** The log lines of a start, added one at a time. */
  lemma StartLogs(logs: seq<Log>, starting: Log, notes: seq<Log>, failed: bool, error: Log)
    ensures AppendedAll(logs, [starting] + notes + (if failed then [error] else []))
            == var running := AppendedAll(Appended(logs, starting), notes);
               if failed then Appended(running, error) else running
  {
    var tail := notes + (if failed then [error] else []);
    assert [starting] + notes + (if failed then [error] else []) == [starting] + tail;
    AppendedAllSplit(logs, starting, tail);
    if failed {
      AppendedAllSnoc(Appended(logs, starting), notes, error);
    } else {
      assert tail == notes;
    }
  }

  lemma AppendedAllSplit(logs: seq<Log>, first: Log, rest: seq<Log>)
    ensures AppendedAll(logs, [first] + rest) == AppendedAll(Appended(logs, first), rest)
  {
    assert ([first] + rest)[0] == first && ([first] + rest)[1..] == rest;
  }

  lemma StartTraceSnoc(c: Config, i: nat, token: Option<string>, vaults: seq<Vault>, appUrl: string,
                       spawn: nat -> Spawn)
    requires i < |c|
    ensures StartTrace(c[..i + 1], token, vaults, appUrl, spawn)
            == StartStep(StartTrace(c[..i], token, vaults, appUrl, spawn), c[i], token, vaults, appUrl, spawn)
  {
    assert c[..i + 1][..i] == c[..i] && c[..i + 1][i] == c[i];
  }

  lemma {:induction false} TraceStaysFailed(c: Config, i: nat, token: Option<string>, vaults: seq<Vault>, appUrl: string,
                                            spawn: nat -> Spawn)
    requires i <= |c| && StartTrace(c[..i], token, vaults, appUrl, spawn).failed
    ensures StartTrace(c, token, vaults, appUrl, spawn) == StartTrace(c[..i], token, vaults, appUrl, spawn)
    decreases |c| - i
  {
    if i < |c| {
      StartTraceSnoc(c, i, token, vaults, appUrl, spawn);
      TraceStaysFailed(c, i + 1, token, vaults, appUrl, spawn);
    } else {
      assert c[..i] == c;
    }
  }
}
