/**
 * `rewriteCss` of `src/lib/proxy.ts`: every `url(...)` of a style sheet that is
 * neither empty nor a `data:` URL is replaced by the proxy URL of its resolution,
 * in the quote style the original used.
 */
module CssRewriter {
  import opened Wrappers
  import opened JsString
  import opened ProxyCodec
  import opened Resolution
  import opened Patterns

  /** The quote the replacement uses: a double quote if the match has one anywhere,
      else a single quote if it has one, else none. */
  function QuoteOf(text: string): string {
    if '"' in text then "\"" else if '\'' in text then "'" else ""
  }

  /** The callback of `rewriteCss` for one `url(...)` match. */
  function CssUrlReplacement(cfg: ProxyConfig, base: BaseUrl, m: Match): (r: string)
    ensures m.capture == "" || StartsWith(m.capture, "data:") ==> r == m.text
    ensures m.capture != "" && !StartsWith(m.capture, "data:") ==>
      StartsWith(r, "url(") && r[|r| - 1] == ')'
  {
    var url := m.capture;
    if url == "" || StartsWith(url, "data:") then m.text
    else
      var q := QuoteOf(m.text);
      assert |q| <= 1;
      var r := "url(" + q + ProxyUrl(cfg, Resolve(url, base)) + q + ")";
      assert r[..4] == "url(";
      r
  }

  /** `rewriteCss(css, baseUrl, config)`. */
  function RewriteCss(cfg: ProxyConfig, base: BaseUrl, css: string): (r: string)
    ensures !cfg.rewriteUrls ==> r == css
  {
    if !cfg.rewriteUrls then css
    else ReplaceAll(CssUrl, css, m => CssUrlReplacement(cfg, base, m))
  }

  /** A characters run that `url(...)` accepts as its URL. */
  predicate CssUrlBody(u: string) {
    u != [] && forall k :: 0 <= k < |u| ==> u[k] !in {'"', '\'', ')'}
  }

  /** Where the pieces of a `url(...)` declaration sit. */
  lemma DeclarationPieces(q: string, u: string)
    requires q == "" || q == "\"" || q == "'"
    requires CssUrlBody(u)
    ensures var s := "url(" + q + u + q + ")";
      && |s| == 5 + 2 * |q| + |u|
      && StartsAtCi(s, 0, "url(")
      && (IsQuote(s[4]) <==> q != "")
      && (forall k :: 4 + |q| <= k < 4 + |q| + |u| ==> s[k] !in {'"', '\'', ')'})
      && s[4 + |q| + |u|] in {'"', '\'', ')'}
      && (IsQuote(s[4 + |q| + |u|]) <==> q != "")
      && s[|s| - 1] == ')'
      && s[4 + |q|..4 + |q| + |u|] == u
  {
    var s := "url(" + q + u + q + ")";
    var j1 := 4 + |q|;
    assert s[..4] == "url(";
    assert forall k :: j1 <= k < j1 + |u| ==> s[k] == u[k - j1];
    assert s[j1..j1 + |u|] == u;
    if q == "" {
      assert s[4] == u[0];
    }
  }

  /** `SkipUntil` stops at the first character of `stops`. */
  lemma SkipUntilRun(s: string, j: nat, n: nat, stops: set<char>)
    requires j + n < |s|
    requires forall k :: j <= k < j + n ==> s[k] !in stops
    requires s[j + n] in stops
    ensures SkipUntil(s, j, stops) == j + n
  {
  }

  /** `CssUrlAt` on a text that opens with `url(`, whose run `[j1, k)` is followed by
      an optional quote and the closing `)` that ends the text. */
  lemma CssUrlAtWhole(s: string, j1: nat, k: nat)
    requires StartsAtCi(s, 0, "url(") && 4 < |s|
    requires j1 == if IsQuote(s[4]) then 5 else 4
    requires j1 < k < |s| && SkipUntil(s, j1, {'"', '\'', ')'}) == k
    requires (if IsQuote(s[k]) then k + 1 else k) == |s| - 1 && s[|s| - 1] == ')'
    ensures CssUrlAt(s, 0) == Some(Match(|s|, s, s[j1..k], ""))
  {
    assert s[0..|s|] == s;
  }

  /** `url(` with an optional quote around an accepted run matches as a whole, and
      the run is its capture. */
  lemma CssUrlAtDeclaration(q: string, u: string)
    requires q == "" || q == "\"" || q == "'"
    requires CssUrlBody(u)
    ensures var s := "url(" + q + u + q + ")";
      FindAt(CssUrl, s, 0) == Some(Match(|s|, s, u, ""))
  {
    var s := "url(" + q + u + q + ")";
    DeclarationPieces(q, u);
    var j1 := 4 + |q|;
    SkipUntilRun(s, j1, |u|, {'"', '\'', ')'});
    CssUrlAtWhole(s, j1, j1 + |u|);
  }

  lemma QuoteOfDeclaration(q: string, u: string)
    requires q == "" || q == "\"" || q == "'"
    requires CssUrlBody(u)
    ensures QuoteOf("url(" + q + u + q + ")") == q
  {
    var s := "url(" + q + u + q + ")";
    if q == "" {
      assert forall k :: 0 <= k < |s| ==> s[k] !in {'"', '\''};
    } else {
      assert s[4] == q[0];
    }
  }

  /** One `url(...)` declaration, quoted either way or unquoted, is replaced by the
      proxy URL in the same quotes. */
  lemma RewriteCssSingleUrl(cfg: ProxyConfig, base: BaseUrl, q: string, u: string)
    requires cfg.rewriteUrls
    requires q == "" || q == "\"" || q == "'"
    requires CssUrlBody(u) && !StartsWith(u, "data:")
    ensures RewriteCss(cfg, base, "url(" + q + u + q + ")") == "url(" + q + ProxyUrl(cfg, Resolve(u, base)) + q + ")"
  {
    var s := "url(" + q + u + q + ")";
    CssUrlAtDeclaration(q, u);
    QuoteOfDeclaration(q, u);
    var m := Match(|s|, s, u, "");
    var f := (m: Match) => CssUrlReplacement(cfg, base, m);
    assert ReplaceFrom(CssUrl, s, 0, f) == f(m) + ReplaceFrom(CssUrl, s, |s|, f);
  }

  /** A style sheet whose every `url(...)` holds a `data:` URL comes back unchanged. */
  lemma RewriteCssDataUntouched(cfg: ProxyConfig, base: BaseUrl, css: string)
    requires forall j :: 0 <= j <= |css| && FindAt(CssUrl, css, j).Some? ==> StartsWith(FindAt(CssUrl, css, j).value.capture, "data:")
    ensures RewriteCss(cfg, base, css) == css
  {
    if cfg.rewriteUrls {
      ReplaceFromIdentity(CssUrl, css, 0, m => CssUrlReplacement(cfg, base, m));
    }
  }

  /** Each rewritten `url(...)` keeps its quote and carries a proxy URL that decodes
      back to the resolved URL. */
  lemma CssUrlReplacementDecodes(cfg: ProxyConfig, base: BaseUrl, m: Match)
    requires WellFormed(base)
    requires m.capture != "" && !StartsWith(m.capture, "data:")
    requires Base64.IsLatin1(Resolve(m.capture, base))
    ensures exists e :: (CssUrlReplacement(cfg, base, m) == "url(" + QuoteOf(m.text) + (cfg.prefix + e) + QuoteOf(m.text) + ")"
                         && DecodeBase64(e) == Resolve(m.capture, base))
  {
    var url := Resolve(m.capture, base);
    ResolveAbsolute(m.capture, base);
    ProxyUrlRoundTrip(cfg, url);
    var p := ProxyUrl(cfg, url);
    var e := p[|cfg.prefix|..];
    PrefixSplit(p, |cfg.prefix|);
    var q := QuoteOf(m.text);
    assert CssUrlReplacement(cfg, base, m) == "url(" + q + (cfg.prefix + e) + q + ")";
  }

  /** A text without `(` has no `url(...)`, so replacing every one of them, by
      whatever callback, leaves it unchanged. */
  lemma CssUrlAbsent(t: string, f: Match -> string)
    requires '(' !in t
    ensures ReplaceAll(CssUrl, t, f) == t
  {
    forall j | 0 <= j <= |t|
      ensures FindAt(CssUrl, t, j).None?
    {
      if j + 4 <= |t| {
        LowerNonLetter(t[j + 3], '(');
        assert Lower(t[j + 3]) != Lower("url("[3]);
      }
    }
    ReplaceFromKept(CssUrl, t, 0, |t|, f);
    ReplaceFromEnd(CssUrl, t, f);
  }

  /** A style sheet without `(` has no `url(...)`, so it comes back unchanged. */
  lemma RewriteCssNoParen(cfg: ProxyConfig, base: BaseUrl, css: string)
    requires '(' !in css
    ensures RewriteCss(cfg, base, css) == css
  {
    CssUrlAbsent(css, m => CssUrlReplacement(cfg, base, m));
  }

  /** A replacement of one `url(...)` holds a `$` only if the style sheet or the
      prefix does. */
  lemma CssUrlReplacementDollarFree(cfg: ProxyConfig, base: BaseUrl, css: string, i: nat, m: Match)
    requires '$' !in css && '$' !in cfg.prefix
    requires i <= m.end <= |css| && m.text == css[i..m.end]
    ensures '$' !in CssUrlReplacement(cfg, base, m)
  {
    if m.capture == "" || StartsWith(m.capture, "data:") {
      assert forall c :: c in css[i..m.end] ==> c in css;
    } else {
      var q := QuoteOf(m.text);
      assert '$' !in q;
      ProxyUrlDollarFree(cfg, Resolve(m.capture, base));
    }
  }

  lemma {:induction false} CssPassDollarFree(cfg: ProxyConfig, base: BaseUrl, css: string, i: nat)
    requires i <= |css| && '$' !in css && '$' !in cfg.prefix
    ensures '$' !in ReplaceFrom(CssUrl, css, i, m => CssUrlReplacement(cfg, base, m))
    decreases |css| - i
  {
    if i < |css| {
      match FindAt(CssUrl, css, i)
      case Some(m) =>
        CssPassDollarFree(cfg, base, css, m.end);
        CssUrlReplacementDollarFree(cfg, base, css, i, m);
      case None =>
        CssPassDollarFree(cfg, base, css, i + 1);
    }
  }

  /** `rewriteCss` introduces no `$` of its own: its result is safe to use as a
      `replace` replacement string when the style sheet and the prefix are. */
  lemma RewriteCssDollarFree(cfg: ProxyConfig, base: BaseUrl, css: string)
    requires '$' !in css && '$' !in cfg.prefix
    ensures '$' !in RewriteCss(cfg, base, css)
  {
    if cfg.rewriteUrls {
      CssPassDollarFree(cfg, base, css, 0);
    }
  }
}
