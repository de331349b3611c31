/**
 * `process_auth_urls` (`src-tauri/src/authorize.rs`): the deep-link handler
 * that takes the token out of the first `dynbox://authorize?token=...` URL
 * and writes it to the application's key-value store.
 *
 * URLs arrive already parsed into their scheme, authority and decoded query
 * pairs. Opening the store and saving it to disk are the two calls that can
 * fail; whether they do, and with which message, is a parameter.
 */
module Authorize {
  import opened Wrappers

  /** A parsed URL: what `scheme()`, `authority()` and `query_pairs()` return. */
  datatype Url = Url(scheme: string, authority: string, queryPairs: seq<(string, string)>)

  const Scheme: string := "dynbox"
  const Authority: string := "authorize"
  const TokenKey: string := "token"

  /** Only `dynbox://authorize` URLs are looked at. */
  predicate IsAuthorizeUrl(u: Url) {
    u.scheme == Scheme && u.authority == Authority
  }

  /** The value of the first query pair whose key is `token`. */
  function FindToken(pairs: seq<(string, string)>): Option<string> {
    if pairs == [] then None
    else if pairs[0].0 == TokenKey then Some(pairs[0].1)
    else FindToken(pairs[1..])
  }

  /** A URL's token: present only for an authorize URL that has a `token` pair. */
  function UrlToken(u: Url): Option<string> {
    if IsAuthorizeUrl(u) then FindToken(u.queryPairs) else None
  }

  /** The token of the first URL that yields one. */
  function FirstToken(urls: seq<Url>): Option<string> {
    if urls == [] then None
    else if UrlToken(urls[0]).Some? then UrlToken(urls[0])
    else FirstToken(urls[1..])
  }

  /**
   * The token found is the value of a `token` pair, and no earlier pair has
   * that key; there is none exactly when no pair has the key.
   */
  lemma {:induction false} FindTokenIsFirst(pairs: seq<(string, string)>)
    ensures FindToken(pairs).None? <==> forall p :: p in pairs ==> p.0 != TokenKey
    ensures FindToken(pairs).Some? ==>
              exists k :: 0 <= k < |pairs| && pairs[k] == (TokenKey, FindToken(pairs).value)
                          && forall j :: 0 <= j < k ==> pairs[j].0 != TokenKey
  {
    if pairs != [] {
      FindTokenIsFirst(pairs[1..]);
      assert forall p :: p in pairs ==> p == pairs[0] || p in pairs[1..];
      if pairs[0].0 != TokenKey && FindToken(pairs).Some? {
        var k :| 0 <= k < |pairs[1..]| && pairs[1..][k] == (TokenKey, FindToken(pairs).value)
                 && forall j :: 0 <= j < k ==> pairs[1..][j].0 != TokenKey;
        assert pairs[k + 1] == pairs[1..][k];
        forall j | 0 <= j < k + 1 ensures pairs[j].0 != TokenKey {
          if j > 0 { assert pairs[j] == pairs[1..][j - 1]; }
        }
      }
    }
  }

  /**
   * The token used is that of the first URL yielding one: a URL that is not
   * `dynbox://authorize`, or that has no `token` pair, is passed over, and
   * there is no token exactly when no URL yields one.
   */
  lemma {:induction false} FirstTokenIsFirst(urls: seq<Url>) returns (k: nat)
    ensures FirstToken(urls).None? <==> forall u :: u in urls ==> UrlToken(u).None?
    ensures FirstToken(urls).Some? ==>
              && k < |urls| && IsAuthorizeUrl(urls[k])
              && FirstToken(urls) == FindToken(urls[k].queryPairs)
              && forall j :: 0 <= j < k ==> UrlToken(urls[j]).None?
  {
    k := 0;
    if urls != [] {
      var k' := FirstTokenIsFirst(urls[1..]);
      assert forall u :: u in urls ==> u == urls[0] || u in urls[1..];
      if UrlToken(urls[0]).None? && FirstToken(urls[1..]).Some? {
        k := k' + 1;
        forall j | 0 <= j < k ensures UrlToken(urls[j]).None? {
          if j > 0 { assert urls[j] == urls[1..][j - 1]; }
        }
      }
    }
  }

  /** Appending URLs after one that yields a token changes nothing: later URLs are ignored. */
  lemma {:induction false} LaterUrlsIgnored(urls: seq<Url>, more: seq<Url>)
    requires FirstToken(urls).Some?
    ensures FirstToken(urls + more) == FirstToken(urls)
  {
    assert urls != [];
    assert (urls + more)[0] == urls[0];
    if UrlToken(urls[0]).None? {
      assert (urls + more)[1..] == urls[1..] + more;
      LaterUrlsIgnored(urls[1..], more);
    }
  }

  /** The application's `config.json` store: its entries in memory and what was last saved to disk. */
  class Store {
    var entries: map<string, string>
    var onDisk: map<string, string>

    constructor (saved: map<string, string>)
      ensures entries == saved && onDisk == saved
    {
      entries := saved;
      onDisk := saved;
    }

    /** `store.set(key, value)`. */
    method Set(key: string, value: string)
      modifies this
      ensures entries == old(entries)[key := value] && onDisk == old(onDisk)
    {
      entries := entries[key := value];
    }

    /** `store.save()`: `saveError` is the error it fails with, if any. */
    method Save(saveError: Option<string>) returns (r: Result<(), string>)
      modifies this
      ensures entries == old(entries)
      ensures saveError.None? ==> r == Ok(()) && onDisk == entries
      ensures saveError.Some? ==> r == Err(saveError.value) && onDisk == old(onDisk)
    {
      if saveError.Some? {
        return Err(saveError.value);
      }
      onDisk := entries;
      return Ok(());
    }
  }

  /**
   * `process_auth_urls`: scans the URLs in order; at the first one yielding
   * a token it opens the store (`openError` is the error that fails with, if
   * any), sets `token`, saves, and returns without looking further.
   */
  method ProcessAuthUrls(store: Store, urls: seq<Url>, openError: Option<string>, saveError: Option<string>)
      returns (r: Result<(), string>)
    modifies store
    ensures FirstToken(urls).None? ==> r == Ok(()) && unchanged(store)
    ensures FirstToken(urls).Some? && openError.Some? ==> r == Err(openError.value) && unchanged(store)
    ensures FirstToken(urls).Some? && openError.None? ==>
              && store.entries == old(store.entries)[TokenKey := FirstToken(urls).value]
              && (saveError.None? ==> r == Ok(()) && store.onDisk == store.entries)
              && (saveError.Some? ==> r == Err(saveError.value) && store.onDisk == old(store.onDisk))
  {
    var i := 0;
    while i < |urls|
      invariant 0 <= i <= |urls|
      invariant FirstToken(urls[i..]) == FirstToken(urls)
      invariant unchanged(store)
    {
      var url := urls[i];
      assert urls[i..][0] == url && urls[i..][1..] == urls[i + 1..];
      if url.scheme == Scheme && url.authority == Authority {
        var token := FindToken(url.queryPairs);
        if token.Some? {
          if openError.Some? {
            return Err(openError.value);
          }
          store.Set(TokenKey, token.value);
          r := store.Save(saveError);
          if r.Err? {
            return r;
          }
          return Ok(());
        }
      }
      i := i + 1;
    }
    return Ok(());
  }
}
