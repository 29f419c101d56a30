/**
 * The URL codec of `src/lib/proxy.ts`: the proxy configuration, `encodeUrl` and
 * `decodeUrl` of the default configuration, and `createProxyUrl`. Whether code runs
 * in a browser (`typeof window !== 'undefined'`) is the parameter `inBrowser`; the
 * token store, the clock and the fresh identifier are passed in.
 */
module ProxyCodec {
  import opened Wrappers
  import opened JsString
  import Base64
  import opened Tokens

  /** The fields of `ProxyConfig` that carry data; `encodeUrl` and `decodeUrl` are the
      methods below. */
  datatype ProxyConfig = ProxyConfig(prefix: string, rewriteUrls: bool, useOneTimeTokens: bool)

  /** `defaultProxyConfig` as the module initialises it. */
  const DefaultProxyConfig := ProxyConfig("/service/", true, false)

  /** The token path is taken only in a browser with one-time tokens switched on. */
  predicate TokensActive(cfg: ProxyConfig, inBrowser: bool) {
    inBrowser && cfg.useOneTimeTokens
  }

  /** The test `/^https?:\/\//i`. */
  predicate HasHttpScheme(url: string) {
    StartsAtCi(url, 0, "http://") || StartsAtCi(url, 0, "https://")
  }

  /** A URL whose first character is neither `h` nor `H` has no HTTP scheme. */
  lemma NoSchemeLead(url: string)
    ensures url != [] && url[0] != 'h' && url[0] != 'H' ==> !HasHttpScheme(url)
  {
    if url != [] && url[0] != 'h' && url[0] != 'H' {
      assert Lower(url[0 + 0]) != Lower("http://"[0]);
      assert Lower(url[0 + 0]) != Lower("https://"[0]);
    }
  }

  /** `createProxyUrl`'s normalisation: `https://` is prepended exactly when the URL
      does not already start with `http://` or `https://` in any letter case. */
  function Normalize(url: string): (r: string)
    ensures HasHttpScheme(r)
    ensures HasHttpScheme(url) ==> r == url
    ensures !HasHttpScheme(url) ==> r == "https://" + url
  {
    if HasHttpScheme(url) then url else "https://" + url
  }

  lemma NormalizeIdempotent(url: string)
    ensures Normalize(Normalize(url)) == Normalize(url)
  {
  }

  /** `createProxyUrl(url, cfg)` when the base64 path is taken: the prefix followed by
      `btoa` of the normalised URL, or `/error` when `btoa` throws. */
  function ProxyUrl(cfg: ProxyConfig, url: string): (r: string)
    ensures !Base64.IsLatin1(Normalize(url)) ==> r == "/error"
    ensures Base64.IsLatin1(Normalize(url)) ==>
      |cfg.prefix| < |r| && r[..|cfg.prefix|] == cfg.prefix
      && forall k :: |cfg.prefix| <= k < |r| ==> r[k] == '=' || Base64.ValueOf(r[k]).Some?
  {
    match Base64.Btoa(Normalize(url))
    case Some(e) => cfg.prefix + e
    case None => "/error"
  }

  /** `decodeUrl`'s fallback: `atob`, and the empty string when it throws. */
  function DecodeBase64(encoded: string): string
  {
    Base64.Atob(encoded).GetOr("")
  }

  /** With tokens off, the segment after the prefix decodes back to the normalised
      URL, and `/error` is produced when that URL has a character above U+00FF. */
  lemma ProxyUrlRoundTrip(cfg: ProxyConfig, url: string)
    ensures !Base64.IsLatin1(Normalize(url)) ==> ProxyUrl(cfg, url) == "/error"
    ensures Base64.IsLatin1(Normalize(url)) ==>
      |cfg.prefix| <= |ProxyUrl(cfg, url)|
      && ProxyUrl(cfg, url)[..|cfg.prefix|] == cfg.prefix
      && DecodeBase64(ProxyUrl(cfg, url)[|cfg.prefix|..]) == Normalize(url)
  {
    Base64.BtoaRoundTrip(Normalize(url));
    if Base64.IsLatin1(Normalize(url)) {
      var e := Base64.Btoa(Normalize(url)).value;
      assert (cfg.prefix + e)[|cfg.prefix|..] == e;
    }
  }

  /** A proxied URL carries a `$` only if the prefix does. */
  lemma ProxyUrlDollarFree(cfg: ProxyConfig, url: string)
    requires '$' !in cfg.prefix
    ensures '$' !in ProxyUrl(cfg, url)
  {
    var n := Normalize(url);
    if Base64.IsLatin1(n) {
      Base64.EncodeAlphabet(Base64.BytesOfString(n));
    }
  }

  /** `defaultProxyConfig.encodeUrl(url)`; `None` is the exception `btoa` throws. */
  method EncodeUrl(cfg: ProxyConfig, inBrowser: bool, tm: TokenManager, url: string, freshToken: string, now: int)
    returns (r: Option<string>)
    requires TokensActive(cfg, inBrowser) ==> freshToken !in tm.tokens
    modifies tm
    ensures TokensActive(cfg, inBrowser) ==> r == Some(freshToken) && tm.tokens == Issued(old(tm.tokens), freshToken, url, now)
    ensures !TokensActive(cfg, inBrowser) ==> r == Base64.Btoa(url) && tm.tokens == old(tm.tokens)
  {
    if inBrowser && cfg.useOneTimeTokens {
      var t := tm.CreateToken(url, freshToken, now);
      return Some(t);
    }
    r := Base64.Btoa(url);
  }

  /** `defaultProxyConfig.decodeUrl(encoded)`: a token lookup first (a hit with an
      empty URL counts as a miss, being falsy), then `atob`, and `''` on failure. */
  method DecodeUrl(cfg: ProxyConfig, inBrowser: bool, tm: TokenManager, encoded: string, now: int)
    returns (r: string)
    modifies tm
    ensures TokensActive(cfg, inBrowser) ==> tm.tokens == Redeemed(old(tm.tokens), encoded, now).tokens
    ensures !TokensActive(cfg, inBrowser) ==> tm.tokens == old(tm.tokens)
    ensures r == (if TokensActive(cfg, inBrowser) && Redeemed(old(tm.tokens), encoded, now).url.GetOr("") != ""
                  then Redeemed(old(tm.tokens), encoded, now).url.value
                  else DecodeBase64(encoded))
  {
    if inBrowser && cfg.useOneTimeTokens {
      var url := tm.GetUrlByToken(encoded, now);
      if url.Some? && url.value != "" {
        return url.value;
      }
    }
    r := DecodeBase64(encoded);
  }

  /** `createProxyUrl(url, cfg)`. */
  method CreateProxyUrl(cfg: ProxyConfig, inBrowser: bool, tm: TokenManager, url: string, freshToken: string, now: int)
    returns (r: string)
    requires TokensActive(cfg, inBrowser) ==> freshToken !in tm.tokens
    modifies tm
    ensures TokensActive(cfg, inBrowser) ==>
      r == cfg.prefix + freshToken && tm.tokens == Issued(old(tm.tokens), freshToken, Normalize(url), now)
    ensures !TokensActive(cfg, inBrowser) ==> r == ProxyUrl(cfg, url) && tm.tokens == old(tm.tokens)
  {
    var normalized := if HasHttpScheme(url) then url else "https://" + url;
    var encoded := EncodeUrl(cfg, inBrowser, tm, normalized, freshToken, now);
    match encoded
    case Some(e) => r := cfg.prefix + e;
    case None => r := "/error";
  }

  /** One-time mode end to end: a proxied URL's token decodes to the normalised URL
      once; the second decode no longer finds the token and falls back to `atob`. */
  method OneTimeRoundTrip(cfg: ProxyConfig, tm: TokenManager, url: string, freshToken: string, issuedAt: int, first: int, later: int)
    returns (proxied: string, firstDecode: string, secondDecode: string)
    requires cfg.useOneTimeTokens && freshToken !in tm.tokens
    requires first - issuedAt <= TokenExpiration
    modifies tm
    ensures proxied == cfg.prefix + freshToken
    ensures firstDecode == Normalize(url)
    ensures secondDecode == DecodeBase64(freshToken)
  {
    proxied := CreateProxyUrl(cfg, true, tm, url, freshToken, issuedAt);
    firstDecode := DecodeUrl(cfg, true, tm, freshToken, first);
    secondDecode := DecodeUrl(cfg, true, tm, freshToken, later);
  }
}
