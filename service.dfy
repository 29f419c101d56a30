/**
 * The client-side state of `src/lib/ultraviolet-service.ts`: the browsing history
 * of `useProxyHistory` and the security level, proxy URL and error of
 * `useProxyService`. React state becomes the fields of two classes; the effects
 * become methods that the setters call when the watched value changes.
 */
module ProxyService {
  import opened Wrappers
  import opened ProxyCodec
  import opened Tokens

  // ---------------------------------------------------------------- history

  /** The default of `useProxyHistory(maxHistoryItems = 10)`. */
  const DefaultMaxHistoryItems: int := 10

  /** `prev.filter(item => item !== url)`. */
  function Without(prev: seq<string>, url: string): (r: seq<string>)
    ensures |r| <= |prev|
  {
    if prev == [] then []
    else (if prev[0] == url then [] else [prev[0]]) + Without(prev[1..], url)
  }

  /** `s.slice(0, end)`: a negative end counts from the back, and an end beyond the
      length stops at the length. */
  function SliceTo(s: seq<string>, end: int): (r: seq<string>)
    ensures end >= 0 ==> |r| == if end < |s| then end else |s|
    ensures end < 0 ==> |r| == if |s| + end > 0 then |s| + end else 0
    ensures r == s[..|r|]
  {
    if end >= 0 then (if end < |s| then s[..end] else s)
    else if |s| + end > 0 then s[..|s| + end]
    else []
  }

  /** The history `addToHistory(url)` leaves behind. */
  function AddedToHistory(prev: seq<string>, url: string, max: int): (r: seq<string>)
    ensures max >= 1 ==> r != [] && r[0] == url
    ensures max >= 0 ==> |r| <= max
    ensures |r| <= |prev| + 1
  {
    SliceTo([url] + Without(prev, url), max)
  }

  /** No entry occurs twice. */
  predicate Distinct(h: seq<string>) {
    forall i, j :: 0 <= i < j < |h| ==> h[i] != h[j]
  }

  /** The filter keeps, in their order, exactly the entries other than `url`. */
  lemma {:induction false} WithoutKeeps(prev: seq<string>, url: string)
    ensures forall x :: x in Without(prev, url) <==> x in prev && x != url
    ensures multiset(Without(prev, url))[url] == 0
    ensures forall x :: x != url ==> multiset(Without(prev, url))[x] == multiset(prev)[x]
    ensures url !in prev ==> Without(prev, url) == prev
  {
    if prev != [] {
      WithoutKeeps(prev[1..], url);
      assert prev == [prev[0]] + prev[1..];
    }
  }

  /** Filtering a duplicate-free history leaves it duplicate-free. */
  lemma {:induction false} WithoutDistinct(prev: seq<string>, url: string)
    requires Distinct(prev)
    ensures Distinct(Without(prev, url))
  {
    if prev != [] {
      WithoutDistinct(prev[1..], url);
      WithoutKeeps(prev[1..], url);
      var rest := Without(prev[1..], url);
      if prev[0] != url {
        assert prev[0] !in prev[1..];
        assert prev[0] !in rest;
        assert forall j :: 0 <= j < |rest| ==> ([prev[0]] + rest)[j + 1] == rest[j];
      }
    }
  }

  /** With room for one entry or more, the added URL comes first and nowhere else,
      and what follows it is the earlier history without it, in order, cut to size. */
  lemma AddedPutsFirst(prev: seq<string>, url: string, max: int)
    requires max >= 1
    ensures var h := AddedToHistory(prev, url, max);
      && h != [] && h[0] == url
      && url !in h[1..]
      && h[1..] == Without(prev, url)[..|h| - 1]
  {
    var w := Without(prev, url);
    WithoutKeeps(prev, url);
    var h := AddedToHistory(prev, url, max);
    assert ([url] + w)[1..] == w;
    assert h[1..] == w[..|h| - 1];
  }

  /** A non-negative maximum bounds the history; it is filled to the maximum or holds
      the whole filtered history. */
  lemma AddedBounded(prev: seq<string>, url: string, max: int)
    requires max >= 0
    ensures |AddedToHistory(prev, url, max)| <= max
    ensures |AddedToHistory(prev, url, max)| == max || |AddedToHistory(prev, url, max)| == 1 + |Without(prev, url)|
  {
  }

  /** When the cap leaves room for the whole earlier history, no earlier entry is
      lost. */
  lemma AddedKeepsRecent(prev: seq<string>, url: string, max: int, x: string)
    requires x in prev && x != url
    requires max >= 1 + |prev|
    ensures x in AddedToHistory(prev, url, max)
  {
    WithoutKeeps(prev, url);
    assert x in ([url] + Without(prev, url))[1..];
  }

  /** A new entry in front of a duplicate-free history it is not in. */
  lemma DistinctCons(url: string, w: seq<string>)
    requires Distinct(w) && url !in w
    ensures Distinct([url] + w)
  {
    var l := [url] + w;
    assert forall j :: 0 <= j < |w| ==> l[j + 1] == w[j];
  }

  /** A prefix of a duplicate-free history. */
  lemma DistinctPrefix(l: seq<string>, n: nat)
    requires Distinct(l) && n <= |l|
    ensures Distinct(l[..n])
  {
    assert forall i :: 0 <= i < n ==> l[..n][i] == l[i];
  }

  /** Adding keeps a duplicate-free history duplicate-free. */
  lemma AddedDistinct(prev: seq<string>, url: string, max: int)
    requires Distinct(prev)
    ensures Distinct(AddedToHistory(prev, url, max))
  {
    var w := Without(prev, url);
    WithoutDistinct(prev, url);
    WithoutKeeps(prev, url);
    DistinctCons(url, w);
    DistinctPrefix([url] + w, |AddedToHistory(prev, url, max)|);
  }

  /** Adding the same URL twice in a row is the same as adding it once, whenever the
      maximum is not negative. */
  lemma AddedIdempotent(prev: seq<string>, url: string, max: int)
    requires max >= 0
    ensures AddedToHistory(AddedToHistory(prev, url, max), url, max) == AddedToHistory(prev, url, max)
  {
    var h := AddedToHistory(prev, url, max);
    if max >= 1 {
      AddedPutsFirst(prev, url, max);
      WithoutKeeps(h[1..], url);
      assert h == [url] + h[1..];
      assert Without(h, url) == Without(h[1..], url);
      assert [url] + Without(h, url) == h;
    }
  }

  /** A negative maximum drops that many entries from the back, so the added URL
      itself is lost when the filtered history is short. */
  lemma AddedNegativeMax(prev: seq<string>, url: string, max: int)
    requires max < 0 && 1 + |Without(prev, url)| + max <= 0
    ensures AddedToHistory(prev, url, max) == []
  {
  }

  /** `useProxyHistory`: the history and the cap it was created with. */
  class ProxyHistory {
    const maxHistoryItems: int
    var history: seq<string>

    /** The history holds no URL twice and, for a non-negative cap, no more than the
        cap. */
    predicate Valid()
      reads this
    {
      Distinct(history) && (maxHistoryItems >= 0 ==> |history| <= maxHistoryItems)
    }

    /** A mounted hook starts with an empty history. */
    constructor (maxHistoryItems: int)
      ensures this.maxHistoryItems == maxHistoryItems && history == []
      ensures Valid()
    {
      this.maxHistoryItems := maxHistoryItems;
      history := [];
    }

    /** `useProxyHistory()` without an argument: the cap defaults to ten. */
    constructor Default()
      ensures maxHistoryItems == DefaultMaxHistoryItems == 10 && history == []
      ensures Valid()
    {
      maxHistoryItems := DefaultMaxHistoryItems;
      history := [];
    }

    /** `addToHistory(url)`. */
    method AddToHistory(url: string)
      modifies this
      ensures history == AddedToHistory(old(history), url, maxHistoryItems)
      ensures old(Valid()) ==> Valid()
    {
      if Distinct(history) {
        AddedDistinct(history, url, maxHistoryItems);
      }
      if maxHistoryItems >= 0 {
        AddedBounded(history, url, maxHistoryItems);
      }
      var filtered := Without(history, url);
      history := SliceTo([url] + filtered, maxHistoryItems);
    }

    /** `clearHistory()`. */
    method ClearHistory()
      modifies this
      ensures history == []
      ensures Valid()
    {
      history := [];
    }
  }

  // ---------------------------------------------------------------- service

  datatype SecurityLevel = Standard | OneTime

  /** The effect on `securityLevel`: one-time tokens are on exactly at `one-time`. */
  function WithSecurityLevel(cfg: ProxyConfig, level: SecurityLevel): (r: ProxyConfig)
    ensures r.useOneTimeTokens <==> level == OneTime
    ensures r.prefix == cfg.prefix && r.rewriteUrls == cfg.rewriteUrls
  {
    cfg.(useOneTimeTokens := level == OneTime)
  }

  /** `useProxyService`: its React state, the shared `defaultProxyConfig` it writes,
      and the token store `TokenManager.getInstance()` returns. The hook runs only in
      a browser, so the token path of `createProxyUrl` is open to it. */
  class ProxyServiceState {
    var loading: bool
    var error: Option<string>
    var proxyUrl: Option<string>
    var securityLevel: SecurityLevel
    var config: ProxyConfig
    const tokens: TokenManager

    /** The state of a fresh hook before its first effect: security level
        `one-time`, nothing loaded. */
    constructor (config: ProxyConfig, tokens: TokenManager)
      ensures securityLevel == OneTime
      ensures !loading && error == None && proxyUrl == None
      ensures this.config == config && this.tokens == tokens
    {
      loading := false;
      error := None;
      proxyUrl := None;
      securityLevel := OneTime;
      this.config := config;
      this.tokens := tokens;
    }

    /** The effect body: set `useOneTimeTokens` from the level and, at `one-time`,
        sweep the token store once. */
    method ApplySecurityLevel(now: int)
      modifies this, tokens
      ensures config == WithSecurityLevel(old(config), securityLevel)
      ensures securityLevel == OneTime ==> tokens.tokens == Swept(old(tokens.tokens), now)
      ensures securityLevel == Standard ==> tokens.tokens == old(tokens.tokens)
      ensures securityLevel == old(securityLevel) && loading == old(loading)
      ensures error == old(error) && proxyUrl == old(proxyUrl)
    {
      config := config.(useOneTimeTokens := securityLevel == OneTime);
      if securityLevel == OneTime {
        var _ := tokens.CleanExpiredTokens(now);
      }
    }

    /** `setSecurityLevel(level)`; the effect runs again only when the level changes. */
    method SetSecurityLevel(level: SecurityLevel, now: int)
      modifies this, tokens
      ensures securityLevel == level
      ensures level != old(securityLevel) ==> config == WithSecurityLevel(old(config), level)
      ensures level == old(securityLevel) ==> config == old(config) && tokens.tokens == old(tokens.tokens)
      ensures level != old(securityLevel) && level == OneTime ==> tokens.tokens == Swept(old(tokens.tokens), now)
      ensures level == Standard ==> tokens.tokens == old(tokens.tokens)
      ensures loading == old(loading) && error == old(error) && proxyUrl == old(proxyUrl)
    {
      if level != securityLevel {
        securityLevel := level;
        ApplySecurityLevel(now);
      }
    }

    /** `navigateTo(url)`: `createProxyUrl` with the shared configuration; it reports
        failure as `/error` rather than by throwing, so the error stays cleared. */
    method NavigateTo(url: string, freshToken: string, now: int)
      requires config.useOneTimeTokens ==> freshToken !in tokens.tokens
      modifies this, tokens
      ensures !loading && error == None
      ensures config.useOneTimeTokens ==>
        proxyUrl == Some(config.prefix + freshToken)
        && tokens.tokens == Issued(old(tokens.tokens), freshToken, Normalize(url), now)
      ensures !config.useOneTimeTokens ==>
        proxyUrl == Some(ProxyUrl(config, url)) && tokens.tokens == old(tokens.tokens)
      ensures config == old(config) && securityLevel == old(securityLevel)
    {
      loading := true;
      error := None;
      var proxied := CreateProxyUrl(config, true, tokens, url, freshToken, now);
      proxyUrl := Some(proxied);
      loading := false;
    }
  }

  /** Mounting the hook and letting its first effect run switches one-time tokens on
      and sweeps the store; on the module's default configuration the shared object
      becomes `/service/` with rewriting and one-time tokens on. */
  method Mount(config: ProxyConfig, tokens: TokenManager, now: int) returns (s: ProxyServiceState)
    modifies tokens
    ensures s.securityLevel == OneTime && s.config.useOneTimeTokens
    ensures s.config.prefix == config.prefix && s.config.rewriteUrls == config.rewriteUrls
    ensures s.tokens == tokens && tokens.tokens == Swept(old(tokens.tokens), now)
    ensures config == DefaultProxyConfig ==> s.config == ProxyConfig("/service/", true, true)
  {
    s := new ProxyServiceState(config, tokens);
    s.ApplySecurityLevel(now);
  }
}
