/**
 * The vault configuration the home page keeps in the `vaults` store entry:
 * an object from vault ids to `{ directory?, enabled }`, kept here as the
 * ordered list of its entries (object keys keep their insertion order, and
 * both the mount order and the JSON comparison depend on it).
 *
 * The three edits of `src/app/page.tsx` rebuild the object with a spread
 * (`{ ...configVaults, [vaultId]: ... }`): a key already present keeps its
 * place, a new key goes last.
 */
module VaultConfig {
  import opened Wrappers

  /** One vault's settings: the mount directory (absent or `undefined` alike) and whether it is mounted. */
  datatype Settings = Settings(directory: Option<string>, enabled: bool)

  datatype Entry = Entry(id: string, settings: Settings)

  /** The entries of the configuration object, in key order. */
  type Config = seq<Entry>

  /** A vault of the account, as the `/vaults` query lists it. */
  datatype Vault = Vault(id: string, name: string)

  function Ids(c: Config): (r: seq<string>)
    ensures |r| == |c|
    ensures forall i :: 0 <= i < |c| ==> r[i] == c[i].id
  {
    if c == [] then [] else [c[0].id] + Ids(c[1..])
  }

  /** Object keys are unique. */
  predicate UniqueIds(c: Config) {
    forall i, j :: 0 <= i < j < |c| ==> c[i].id != c[j].id
  }

  /** `configVaults?.[vaultId]`. */
  function Lookup(c: Config, id: string): Option<Settings> {
    if c == [] then None
    else if c[0].id == id then Some(c[0].settings)
    else Lookup(c[1..], id)
  }

  /** `{ ...c, [id]: s }`: replaced in place when present, appended otherwise. */
  function Put(c: Config, id: string, s: Settings): Config {
    if c == [] then [Entry(id, s)]
    else if c[0].id == id then [Entry(id, s)] + c[1..]
    else [c[0]] + Put(c[1..], id, s)
  }

  /** `const { [id]: _, ...rest } = c`: everything but that key, in order. */
  function Without(c: Config, id: string): (r: Config)
    ensures |r| <= |c|
  {
    if c == [] then []
    else (if c[0].id == id then [] else [c[0]]) + Without(c[1..], id)
  }

  lemma {:induction false} LookupSome(c: Config, id: string)
    ensures Lookup(c, id).Some? <==> id in Ids(c)
    ensures Lookup(c, id).Some? ==> Entry(id, Lookup(c, id).value) in c
  {
    if c != [] {
      LookupSome(c[1..], id);
      assert Ids(c) == [c[0].id] + Ids(c[1..]);
    }
  }

  /**
   * After `Put`, the key maps to the new settings and every other key to
   * what it mapped to before.
   */
  lemma {:induction false} PutLookup(c: Config, id: string, s: Settings, other: string)
    ensures Lookup(Put(c, id, s), other) == if other == id then Some(s) else Lookup(c, other)
  {
    if c != [] && c[0].id != id {
      PutLookup(c[1..], id, s, other);
    }
  }

  /** `Put` keeps the key order, and a new key goes last. */
  lemma {:induction false} PutIds(c: Config, id: string, s: Settings)
    ensures Ids(Put(c, id, s)) == if id in Ids(c) then Ids(c) else Ids(c) + [id]
  {
    if c != [] {
      PutIds(c[1..], id, s);
      assert Ids(c) == [c[0].id] + Ids(c[1..]);
      if c[0].id != id {
        assert Ids(Put(c, id, s)) == [c[0].id] + Ids(Put(c[1..], id, s));
      } else {
        assert Ids(Put(c, id, s)) == [id] + Ids(c[1..]);
      }
    }
  }

  /** A later write to the same key overrides an earlier one. */
  lemma {:induction false} PutPut(c: Config, id: string, s: Settings, t: Settings)
    ensures Put(Put(c, id, s), id, t) == Put(c, id, t)
  {
    if c != [] && c[0].id != id {
      PutPut(c[1..], id, s, t);
    }
  }

  /** `Put` keeps the keys unique. */
  lemma PutUnique(c: Config, id: string, s: Settings)
    requires UniqueIds(c)
    ensures UniqueIds(Put(c, id, s))
  {
    PutIds(c, id, s);
    LookupSome(c, id);
    var r, ids := Put(c, id, s), Ids(c);
    forall i, j | 0 <= i < j < |r| ensures r[i].id != r[j].id {
      assert r[i].id == Ids(r)[i] && r[j].id == Ids(r)[j];
      if j < |c| {
        assert ids[i] == c[i].id && ids[j] == c[j].id;
      } else {
        assert ids[i] == c[i].id && c[i].id in ids;
      }
    }
  }

  /** `Without` drops exactly that key and keeps the rest in order. */
  lemma {:induction false} WithoutLookup(c: Config, id: string, other: string)
    ensures Lookup(Without(c, id), other) == if other == id then None else Lookup(c, other)
  {
    if c != [] {
      WithoutLookup(c[1..], id, other);
      var w := Without(c[1..], id);
      if c[0].id != id {
        assert Without(c, id) == [c[0]] + w;
        assert ([c[0]] + w)[0] == c[0] && ([c[0]] + w)[1..] == w;
      } else {
        assert Without(c, id) == w;
      }
    }
  }

  lemma {:induction false} WithoutIds(c: Config, id: string)
    ensures id !in Ids(Without(c, id))
    ensures forall x :: x in Ids(Without(c, id)) <==> x in Ids(c) && x != id
  {
    if c != [] {
      WithoutIds(c[1..], id);
      assert Ids(c) == [c[0].id] + Ids(c[1..]);
      if c[0].id == id {
        assert Without(c, id) == Without(c[1..], id);
      } else {
        assert Ids(Without(c, id)) == [c[0].id] + Ids(Without(c[1..], id));
      }
    }
  }

  /** The remaining entries keep their order: dropping a key from a concatenation drops it from each part. */
  lemma {:induction false} WithoutAppend(a: Config, b: Config, id: string)
    ensures Without(a + b, id) == Without(a, id) + Without(b, id)
  {
    if a == [] {
      assert a + b == b;
    } else {
      assert (a + b)[0] == a[0];
      assert (a + b)[1..] == a[1..] + b;
      WithoutAppend(a[1..], b, id);
    }
  }

  lemma {:induction false} WithoutUnique(c: Config, id: string)
    requires UniqueIds(c)
    ensures UniqueIds(Without(c, id))
  {
    if c != [] {
      WithoutUnique(c[1..], id);
      WithoutIds(c[1..], id);
      var r := Without(c, id);
      if c[0].id != id {
        assert r == [c[0]] + Without(c[1..], id);
        forall k | 0 < k < |r| ensures r[k].id != c[0].id {
          assert r[k] == Without(c[1..], id)[k - 1];
          assert r[k].id in Ids(Without(c[1..], id));
          assert c[0].id !in Ids(c[1..]);
        }
      }
    }
  }

  // ---------------------------------------------------------------------
  // The three edits

  /** `configVaults ?? {}`: an unset configuration spreads as the empty object. */
  function OrEmpty(c: Option<Config>): Config {
    if c.Some? then c.value else []
  }

  /**
   * `handleToggleVault`: the vault's `enabled` is negated, an absent vault
   * counting as disabled, and its directory is kept.
   */
  function Toggled(c: Option<Config>, id: string): Config {
    var current := Lookup(OrEmpty(c), id);
    var directory := if current.Some? then current.value.directory else None;
    var enabled := current.Some? && current.value.enabled;
    Put(OrEmpty(c), id, Settings(directory, !enabled))
  }

  /**
   * Toggling flips only that vault's `enabled` (an absent vault becomes
   * enabled and has no directory), keeps its directory and place, and leaves
   * every other vault as it was.
   */
  lemma ToggledSpec(c: Option<Config>, id: string, other: string)
    ensures var before := Lookup(OrEmpty(c), id);
            && Lookup(Toggled(c, id), id).Some?
            && Lookup(Toggled(c, id), id).value.enabled == !(before.Some? && before.value.enabled)
            && Lookup(Toggled(c, id), id).value.directory == (if before.Some? then before.value.directory else None)
            && (other != id ==> Lookup(Toggled(c, id), other) == Lookup(OrEmpty(c), other))
            && Ids(Toggled(c, id)) == if id in Ids(OrEmpty(c)) then Ids(OrEmpty(c)) else Ids(OrEmpty(c)) + [id]
  {
    var current := Lookup(OrEmpty(c), id);
    var s := Settings(if current.Some? then current.value.directory else None, !(current.Some? && current.value.enabled));
    PutLookup(OrEmpty(c), id, s, id);
    PutLookup(OrEmpty(c), id, s, other);
    PutIds(OrEmpty(c), id, s);
  }

  /** Writing an entry's own settings back changes nothing. */
  lemma {:induction false} PutSame(c: Config, id: string)
    requires Lookup(c, id).Some?
    ensures Put(c, id, Lookup(c, id).value) == c
  {
    if c[0].id != id {
      PutSame(c[1..], id);
      assert c == [c[0]] + c[1..];
    } else {
      assert c == [Entry(id, Lookup(c, id).value)] + c[1..];
    }
  }

  /** Toggling a present vault twice restores the whole configuration. */
  lemma ToggledTwice(c: Config, id: string)
    requires Lookup(c, id).Some?
    ensures Toggled(Some(Toggled(Some(c), id)), id) == c
  {
    ToggledSpec(Some(c), id, id);
    var once := Toggled(Some(c), id);
    PutPut(c, id, Lookup(once, id).value, Lookup(c, id).value);
    PutSame(c, id);
  }

  /** `selectedDir.replace(/\\/g, "/")`. */
  function ForwardSlashes(path: string): (r: string)
    ensures |r| == |path|
    ensures forall i :: 0 <= i < |r| ==> r[i] == if path[i] == '\\' then '/' else path[i]
  {
    if path == [] then [] else [if path[0] == '\\' then '/' else path[0]] + ForwardSlashes(path[1..])
  }

  /** The result has no backslash, and converting again changes nothing. */
  lemma ForwardSlashesClean(path: string)
    ensures '\\' !in ForwardSlashes(path)
    ensures ForwardSlashes(ForwardSlashes(path)) == ForwardSlashes(path)
  {
    var r := ForwardSlashes(path);
    assert forall i :: 0 <= i < |r| ==> r[i] != '\\';
  }

  /** `vaults?.find(v => v.vault.id === vaultId)`. */
  function FindVault(vaults: seq<Vault>, id: string): Option<Vault> {
    if vaults == [] then None
    else if vaults[0].id == id then Some(vaults[0])
    else FindVault(vaults[1..], id)
  }

  /**
   * The vault found is the first with that id: it is `vaults[k]` and no
   * earlier vault has the id; none is found exactly when no vault has it.
   */
  lemma {:induction false} FindVaultSpec(vaults: seq<Vault>, id: string) returns (k: nat)
    ensures FindVault(vaults, id).None? <==> forall v :: v in vaults ==> v.id != id
    ensures FindVault(vaults, id).Some? ==>
              && k < |vaults| && vaults[k] == FindVault(vaults, id).value && vaults[k].id == id
              && forall j :: 0 <= j < k ==> vaults[j].id != id
  {
    k := 0;
    if vaults != [] {
      var k' := FindVaultSpec(vaults[1..], id);
      assert forall v :: v in vaults ==> v == vaults[0] || v in vaults[1..];
      if vaults[0].id != id && FindVault(vaults, id).Some? {
        k := k' + 1;
        forall j | 0 <= j < k ensures vaults[j].id != id {
          if j > 0 { assert vaults[j] == vaults[1..][j - 1]; }
        }
      }
    }
  }

  /**
   * `handleDirectorySelect`. `picked` is what the folder dialog resolved to:
   * `None` when it was cancelled or failed. Nothing happens for a vault the
   * account does not have. With `asVolume` the vault is first stored as
   * enabled without a directory; a picked, non-empty path then replaces that
   * with the path (backslashes turned into slashes) and enabled. Both writes
   * spread the configuration as it was when the handler started.
   */
  function DirectorySelected(c: Option<Config>, vaults: seq<Vault>, id: string, asVolume: bool,
                             picked: Option<string>): Option<Config>
  {
    if FindVault(vaults, id).None? then c
    else
      var first := if asVolume then Some(Put(OrEmpty(c), id, Settings(None, true))) else c;
      if picked.Some? && picked.value != "" then Some(Put(OrEmpty(c), id, Settings(Some(ForwardSlashes(picked.value)), true)))
      else first
  }

  /**
   * Selecting a directory stores the converted path and enables the vault,
   * leaving the other vaults alone; the first write, made from the same stale
   * configuration, is entirely overridden.
   */
  lemma DirectorySelectedSpec(c: Option<Config>, vaults: seq<Vault>, id: string, asVolume: bool,
                              path: string, other: string)
    requires FindVault(vaults, id).Some? && path != ""
    ensures var r := DirectorySelected(c, vaults, id, asVolume, Some(path));
            && r.Some?
            && Lookup(r.value, id) == Some(Settings(Some(ForwardSlashes(path)), true))
            && (other != id ==> Lookup(r.value, other) == Lookup(OrEmpty(c), other))
            && r == Some(Put(OrEmpty(if asVolume then Some(Put(OrEmpty(c), id, Settings(None, true))) else c),
                             id, Settings(Some(ForwardSlashes(path)), true)))
  {
    var s := Settings(Some(ForwardSlashes(path)), true);
    PutLookup(OrEmpty(c), id, s, id);
    PutLookup(OrEmpty(c), id, s, other);
    if asVolume {
      PutPut(OrEmpty(c), id, Settings(None, true), s);
    }
  }

  /**
   * A cancelled dialog leaves the vault enabled without a directory when
   * `asVolume` is set, and changes nothing otherwise; so does a vault the
   * account does not have.
   */
  lemma DirectoryCancelled(c: Option<Config>, vaults: seq<Vault>, id: string, asVolume: bool, other: string)
    ensures FindVault(vaults, id).None? ==> DirectorySelected(c, vaults, id, asVolume, None) == c
    ensures !asVolume ==> DirectorySelected(c, vaults, id, asVolume, None) == c
    ensures FindVault(vaults, id).Some? && asVolume ==>
              var r := DirectorySelected(c, vaults, id, asVolume, None);
              && r.Some?
              && Lookup(r.value, id) == Some(Settings(None, true))
              && (other != id ==> Lookup(r.value, other) == Lookup(OrEmpty(c), other))
  {
    PutLookup(OrEmpty(c), id, Settings(None, true), id);
    PutLookup(OrEmpty(c), id, Settings(None, true), other);
  }

  /**
   * `handleRemoveDirectory`: the entry is taken out, its `directory` cleared,
   * and it is put back, as the last key. Nothing happens when there is no
   * configuration, and when the vault is absent the handler fails on
   * `config.directory` before writing anything (`None`).
   */
  function DirectoryRemoved(c: Option<Config>, id: string): Option<Config> {
    if c.None? then c
    else match Lookup(c.value, id)
      case None => None
      case Some(s) => Some(Without(c.value, id) + [Entry(id, Settings(None, s.enabled))])
  }

  /**
   * Removing the directory keeps `enabled`, drops the directory, moves the
   * vault to the end and leaves every other vault and their order alone.
   */
  lemma DirectoryRemovedSpec(c: Config, id: string, other: string)
    requires Lookup(c, id).Some?
    ensures var r := DirectoryRemoved(Some(c), id);
            && r.Some?
            && r.value[|r.value| - 1] == Entry(id, Settings(None, Lookup(c, id).value.enabled))
            && r.value[..|r.value| - 1] == Without(c, id)
            && Lookup(r.value, id) == Some(Settings(None, Lookup(c, id).value.enabled))
            && (other != id ==> Lookup(r.value, other) == Lookup(c, other))
            && (UniqueIds(c) ==> UniqueIds(r.value))
  {
    var w := Without(c, id);
    var e := Entry(id, Settings(None, Lookup(c, id).value.enabled));
    var r := w + [e];
    assert r[..|r| - 1] == w;
    LookupAppend(w, e, id);
    LookupAppend(w, e, other);
    WithoutLookup(c, id, id);
    WithoutLookup(c, id, other);
    if UniqueIds(c) {
      WithoutUnique(c, id);
      WithoutIds(c, id);
      forall k | 0 <= k < |w| ensures w[k].id != id {
        assert w[k].id in Ids(w);
      }
    }
  }

  lemma {:induction false} LookupAppend(c: Config, e: Entry, id: string)
    ensures Lookup(c + [e], id) == if Lookup(c, id).Some? then Lookup(c, id) else if e.id == id then Some(e.settings) else None
  {
    if c == [] {
      assert c + [e] == [e];
    } else {
      assert (c + [e])[1..] == c[1..] + [e];
      LookupAppend(c[1..], e, id);
    }
  }

  /** The absent-vault case: the handler fails and nothing is written. */
  lemma DirectoryRemovedAbsent(c: Config, id: string)
    ensures Lookup(c, id).None? <==> DirectoryRemoved(Some(c), id).None?
  {
  }
}
