/**
 * `rewriteJavaScript` of `src/lib/proxy.ts`: seven patterns, applied one after
 * the other, each replacing the URL of every match by the proxy URL of its
 * resolution, unless the URL is skipped or fails the pattern's validator.
 */
module JsRewriter {
  import opened Wrappers
  import opened JsString
  import opened ProxyCodec
  import opened Resolution
  import opened Patterns

  /** The pattern list of lines 398-423, in the order it is applied. */
  const JsPatterns: seq<Pattern> :=
    [JsFetch, JsNewUrl, JsXhrOpen, JsPropAssign, JsLocation, JsHttpMethod, JsUrlLiteral]

  /** Lines 433-439: URLs the JavaScript rewriter keeps as they are. */
  predicate SkippedByJs(url: string)
    ensures SkippedByJs(url) ==> !HasHttpScheme(url)
  {
    NoSchemeLead(url);
    StartsWith(url, "data:") || StartsWith(url, "blob:") || StartsWith(url, "javascript:")
    || StartsWith(url, "#") || StartsWith(url, "about:")
  }

  // The validator of the bare-literal pattern (lines 416-421). Of its tests only the
  // dot, the space and the comment marker can reject an absolute `http(s)://` URL.
  predicate LooksLikeUrl(url: string)
    ensures HasHttpScheme(url) ==> (LooksLikeUrl(url) <==> '.' in url && ' ' !in url && !Contains(url, "//*/"))
  {
    NoSchemeLead(url);
    '.' in url && ' ' !in url && !StartsWith(url, "//--") && !Contains(url, "//*/")
  }

  /** Only the last pattern carries a validator. */
  predicate Accepts(p: Pattern, url: string) {
    p == JsUrlLiteral ==> LooksLikeUrl(url)
  }

  /** Does the callback rewrite a match whose URL is `url`? */
  predicate Rewrites(p: Pattern, url: string) {
    url != "" && !SkippedByJs(url) && Accepts(p, url)
  }

  /** `mailto:` is on the skip list of `processUrl` but not on this one: a
      `location.href = 'mailto:...'` assignment is rewritten. */
  lemma MailtoRewrittenByJs(rest: string)
    ensures Rewrites(JsLocation, "mailto:" + rest)
  {
    var url := "mailto:" + rest;
    assert url[0] == 'm';
  }

  /** The callback of lines 428-466: the first occurrence of the URL inside the
      match is replaced by the proxy URL of its resolution. */
  function JsReplacement(cfg: ProxyConfig, base: BaseUrl, p: Pattern, m: Match): (r: string)
    ensures !Rewrites(p, m.capture) || !Contains(m.text, m.capture) ==> r == m.text
  {
    if !Rewrites(p, m.capture) then m.text
    else ReplaceFirst(m.text, m.capture, ProxyUrl(cfg, Resolve(m.capture, base)))
  }

  /** One `rewrittenJs.replace(pattern.regex, ...)`. */
  function JsPass(cfg: ProxyConfig, base: BaseUrl, p: Pattern, js: string): string {
    ReplaceAll(p, js, m => JsReplacement(cfg, base, p, m))
  }

  /** The passes of `ps`, in order. */
  function JsPasses(cfg: ProxyConfig, base: BaseUrl, ps: seq<Pattern>, js: string): string {
    if ps == [] then js
    else JsPass(cfg, base, ps[|ps| - 1], JsPasses(cfg, base, ps[..|ps| - 1], js))
  }

  /** What `rewriteJavaScript(js, baseUrl, config)` returns. */
  function JsRewritten(cfg: ProxyConfig, base: BaseUrl, js: string): (r: string)
    ensures !cfg.rewriteUrls ==> r == js
  {
    if !cfg.rewriteUrls then js else JsPasses(cfg, base, JsPatterns, js)
  }

  /** `rewriteJavaScript`: the patterns are applied in turn to the running text. */
  method RewriteJavaScript(cfg: ProxyConfig, base: BaseUrl, js: string) returns (r: string)
    ensures r == JsRewritten(cfg, base, js)
    ensures !cfg.rewriteUrls ==> r == js
  {
    if !cfg.rewriteUrls {
      return js;
    }
    var rewritten := js;
    for i := 0 to |JsPatterns|
      invariant rewritten == JsPasses(cfg, base, JsPatterns[..i], js)
    {
      assert JsPatterns[..i + 1][..i] == JsPatterns[..i];
      rewritten := JsPass(cfg, base, JsPatterns[i], rewritten);
    }
    assert JsPatterns[..|JsPatterns|] == JsPatterns;
    r := rewritten;
  }

  /** A match whose URL is kept is left as it is. */
  lemma JsReplacementKeeps(cfg: ProxyConfig, base: BaseUrl, p: Pattern, m: Match)
    requires !Rewrites(p, m.capture)
    ensures JsReplacement(cfg, base, p, m) == m.text
  {
  }

  /** A pass in which every match's URL is kept leaves the script unchanged. */
  lemma JsPassUntouched(cfg: ProxyConfig, base: BaseUrl, p: Pattern, js: string)
    requires forall j :: 0 <= j <= |js| && FindAt(p, js, j).Some? ==> !Rewrites(p, FindAt(p, js, j).value.capture)
    ensures JsPass(cfg, base, p, js) == js
  {
    ReplaceFromIdentity(p, js, 0, m => JsReplacement(cfg, base, p, m));
  }

  /** A script in which no pattern matches anywhere comes back unchanged. */
  lemma {:induction false} JsPassesUntouched(cfg: ProxyConfig, base: BaseUrl, ps: seq<Pattern>, js: string)
    requires forall p, j :: p in ps && 0 <= j <= |js| ==> FindAt(p, js, j).None?
    ensures JsPasses(cfg, base, ps, js) == js
  {
    if ps != [] {
      var init := ps[..|ps| - 1];
      JsPassesUntouched(cfg, base, init, js);
      JsPassUntouched(cfg, base, ps[|ps| - 1], js);
    }
  }

  /** A rewritten match keeps everything around the first occurrence of its URL and
      puts `proxied`, the proxy URL of the resolved URL, there. */
  lemma JsReplacementAt(cfg: ProxyConfig, base: BaseUrl, p: Pattern, m: Match, k: nat, proxied: string)
    requires Rewrites(p, m.capture) && '$' !in cfg.prefix
    requires proxied == ProxyUrl(cfg, Resolve(m.capture, base))
    requires StartsAt(m.text, k, m.capture)
    requires forall j :: 0 <= j < k ==> !StartsAt(m.text, j, m.capture)
    ensures JsReplacement(cfg, base, p, m) == m.text[..k] + proxied + m.text[k + |m.capture|..]
  {
    ProxyUrlDollarFree(cfg, Resolve(m.capture, base));
    JsReplacementRewrites(cfg, base, p, m, proxied);
    ReplaceFirstAt(m.text, m.capture, proxied, k);
  }

  /** The proxy URL a rewritten match receives is the prefix followed by an encoding
      that decodes back to the resolved URL, or `/error` when that URL has a
      character above U+00FF. */
  lemma JsProxyUrlDecodes(cfg: ProxyConfig, base: BaseUrl, u: string)
    requires WellFormed(base)
    ensures var proxied := ProxyUrl(cfg, Resolve(u, base));
      Base64.IsLatin1(Resolve(u, base)) ==>
        |cfg.prefix| <= |proxied| && proxied[..|cfg.prefix|] == cfg.prefix
        && DecodeBase64(proxied[|cfg.prefix|..]) == Resolve(u, base)
    ensures !Base64.IsLatin1(Resolve(u, base)) ==> ProxyUrl(cfg, Resolve(u, base)) == "/error"
  {
    ResolveAbsolute(u, base);
    ProxyUrlRoundTrip(cfg, Resolve(u, base));
  }

  /** A quote-free, non-empty URL between matching quotes. */
  predicate QuotedUrl(q: string, u: string) {
    (q == "'" || q == "\"") && u != [] && forall k :: 0 <= k < |u| ==> !IsQuote(u[k])
  }

  /** Where the pieces of `fetch('u')` sit. */
  lemma FetchPieces(s: string, q: string, u: string)
    requires QuotedUrl(q, u) && s == "fetch(" + q + u + q + ")"
    ensures StartsAt(s, 0, "fetch(")
    ensures IsQuote(s[6]) && IsQuote(s[7 + |u|]) && s[8 + |u|] == ')'
    ensures s[7..7 + |u|] == u && |s| == 9 + |u|
  {
    assert s[..6] == "fetch(";
    assert s[7..7 + |u|] == u;
  }

  /** `fetch('u')` with either quote is one whole match whose URL is `u`. */
  lemma FetchMatched(s: string, q: string, u: string)
    requires QuotedUrl(q, u) && s == "fetch(" + q + u + q + ")"
    ensures FindAt(JsFetch, s, 0) == Some(Match(|s|, s, u, ""))
  {
    FetchPieces(s, q, u);
    QuotedRunOf(s, 6, u);
    assert SkipSpaces(s, 6) == 6;
    assert SkipSpaces(s, 8 + |u|) == 8 + |u|;
    assert s[0..|s|] == s;
  }

  /** The URL of `fetch('u')` occurs first right after the quote unless it is a piece
      of `fetch(` itself: an earlier occurrence would have to cover the opening quote. */
  lemma FetchUrlFirstAt(s: string, q: string, u: string)
    requires QuotedUrl(q, u) && s == "fetch(" + q + u + q + ")"
    requires !Contains("fetch(", u)
    ensures StartsAt(s, 7, u)
    ensures forall j :: 0 <= j < 7 ==> !StartsAt(s, j, u)
  {
    FetchPieces(s, q, u);
    forall j | 0 <= j < 7 && StartsAt(s, j, u)
      ensures false
    {
      if j + |u| <= 6 {
        StartsAtSlice(s, 0, "fetch(", j, j + |u|);
        assert StartsAt("fetch(", j, u);
      } else {
        StartsAtChar(s, j, u, 6 - j);
      }
    }
  }

  /** The callback on a match whose URL it rewrites. */
  lemma JsReplacementRewrites(cfg: ProxyConfig, base: BaseUrl, p: Pattern, m: Match, proxied: string)
    requires Rewrites(p, m.capture) && proxied == ProxyUrl(cfg, Resolve(m.capture, base))
    ensures JsReplacement(cfg, base, p, m) == ReplaceFirst(m.text, m.capture, proxied)
  {
  }

  /** The callback turns the whole `fetch('u')` match into `fetch('<proxy URL>')`. */
  lemma FetchReplacement(cfg: ProxyConfig, base: BaseUrl, s: string, q: string, u: string)
    requires QuotedUrl(q, u) && s == "fetch(" + q + u + q + ")" && !Contains("fetch(", u)
    requires Rewrites(JsFetch, u) && '$' !in cfg.prefix
    ensures JsReplacement(cfg, base, JsFetch, Match(|s|, s, u, ""))
         == "fetch(" + q + ProxyUrl(cfg, Resolve(u, base)) + q + ")"
  {
    var proxied := ProxyUrl(cfg, Resolve(u, base));
    ProxyUrlDollarFree(cfg, Resolve(u, base));
    JsReplacementRewrites(cfg, base, JsFetch, Match(|s|, s, u, ""), proxied);
    FetchSpliced(s, q, u, proxied);
  }

  /** Splicing a `$`-free text in place of the URL of `fetch('u')`. */
  lemma FetchSpliced(s: string, q: string, u: string, proxied: string)
    requires QuotedUrl(q, u) && s == "fetch(" + q + u + q + ")" && !Contains("fetch(", u)
    requires '$' !in proxied
    ensures ReplaceFirst(s, u, proxied) == "fetch(" + q + proxied + q + ")"
  {
    FetchUrlFirstAt(s, q, u);
    ReplaceFirstAt(s, u, proxied, 7);
    assert s[..7] == "fetch(" + q && s[7 + |u|..] == q + ")";
  }

  /** `fetch('u')` alone is rewritten to `fetch('<proxy URL>')` in its own quotes. */
  lemma FetchRewritten(cfg: ProxyConfig, base: BaseUrl, q: string, u: string)
    requires QuotedUrl(q, u) && !Contains("fetch(", u)
    requires Rewrites(JsFetch, u) && '$' !in cfg.prefix
    ensures JsPass(cfg, base, JsFetch, "fetch(" + q + u + q + ")")
         == "fetch(" + q + ProxyUrl(cfg, Resolve(u, base)) + q + ")"
  {
    var s := "fetch(" + q + u + q + ")";
    FetchMatched(s, q, u);
    FetchReplacement(cfg, base, s, q, u);
    ReplaceAllWhole(JsFetch, s, m => JsReplacement(cfg, base, JsFetch, m));
  }

  /** Line 465 replaces the first occurrence of the URL in the whole match, which
      may lie inside the call text: `fetch('h')` has its `h` of `fetch` replaced. */
  lemma FetchUrlInsideCallName(s: string)
    requires s == "fetch('h')"
    ensures FindAt(JsFetch, s, 0) == Some(Match(|s|, s, "h", ""))
    ensures StartsAt(s, 4, "h") && forall j :: 0 <= j < 4 ==> !StartsAt(s, j, "h")
  {
    FetchMatched(s, "'", "h");
    assert s[4..5] == "h";
    forall j | 0 <= j < 4
      ensures !StartsAt(s, j, "h")
    {
      assert s[j] != 'h';
      assert j + 1 <= |s| ==> s[j..j + 1][0] == s[j];
    }
  }
}
