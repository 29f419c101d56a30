/**
 * How the rewriters of `src/lib/proxy.ts` turn a URL found in a page into an
 * absolute one against the page's base URL, and `processUrl` of `rewriteHtml`.
 * Parsing the base URL (`new URL(baseUrl)`) is not modelled: the parts the code
 * reads from the parsed URL are the fields of `BaseUrl`.
 */
module Resolution {
  import opened Wrappers
  import opened JsString
  import opened ProxyCodec

  /** The base URL as given (`href`) and the parts of its parse that are read. */
  datatype BaseUrl = BaseUrl(href: string, protocol: string, origin: string, pathname: string)

  /** What the WHATWG parser yields for an `http`/`https` base: the protocol with its
      colon, and an origin of the form `scheme://host`. */
  predicate WellFormed(base: BaseUrl) {
    (base.protocol == "http:" || base.protocol == "https:")
    && StartsWith(base.origin, base.protocol + "//")
  }

  /** `pathname.split('/').slice(0, -1).join('/') + '/'`. */
  function BasePath(pathname: string): string {
    var parts := Split(pathname, '/');
    Join(parts[..|parts| - 1], "/") + "/"
  }

  /** The directory of the base path: everything up to and including its last `/`. */
  lemma BasePathDirectory(pathname: string, k: nat)
    requires k < |pathname| && pathname[k] == '/'
    requires forall j :: k < j < |pathname| ==> pathname[j] != '/'
    ensures BasePath(pathname) == pathname[..k + 1]
  {
    var parts := Split(pathname, '/');
    var n := |parts|;
    SplitCount(pathname, '/');
    JoinSplit(pathname, '/');
    JoinSnoc(parts, "/");
    SplitPiecesFree(pathname, '/');
    var head := Join(parts[..n - 1], "/");
    var last := parts[n - 1];
    assert pathname == head + "/" + last;
    assert '/' !in last;
    var c := |head|;
    assert pathname[c] == '/';
    assert forall j :: c < j < |pathname| ==> pathname[j] == last[j - c - 1];
    assert forall j :: c < j < |pathname| ==> pathname[j] != '/';
    assert c == k;
    assert pathname[..k + 1] == head + "/";
  }

  /** A path without any `/` has the root as its directory. */
  lemma BasePathRoot(pathname: string)
    requires '/' !in pathname
    ensures BasePath(pathname) == "/"
  {
    SplitFree(pathname, '/');
  }

  /** The absolute URL the rewriters build for `url` (proxy.ts:86-102, 373-389,
      447-459): absolute URLs are kept, protocol-relative ones get the base's
      protocol, root-relative ones its origin, and all others its origin and
      directory. The scheme test here is case-sensitive. */
  function Resolve(url: string, base: BaseUrl): (r: string)
    ensures |url| <= |r| && r[|r| - |url|..] == url
    ensures StartsWith(url, "http://") || StartsWith(url, "https://") ==> r == url
  {
    if StartsWith(url, "http://") || StartsWith(url, "https://") then url
    else
      var head := if StartsWith(url, "//") then base.protocol
                  else if StartsWith(url, "/") then base.origin
                  else base.origin + BasePath(base.pathname);
      assert (head + url)[|head|..] == url;
      head + url
  }

  /** A URL that starts with `http://` or `https://` passes the scheme test. */
  lemma SchemeOf(r: string, protocol: string)
    requires protocol == "http:" || protocol == "https:"
    requires StartsWith(r, protocol + "//")
    ensures HasHttpScheme(r)
  {
    var scheme := protocol + "//";
    assert forall k :: 0 <= k < |scheme| ==> r[k] == scheme[k];
  }

  /** Prefixing a string that starts with the scheme keeps it there. */
  lemma StartsWithPrefix(a: string, b: string, p: string)
    requires StartsWith(a, p)
    ensures StartsWith(a + b, p)
  {
    assert (a + b)[..|p|] == a[..|p|];
  }

  /** Against a well-formed base every resolved URL is absolute, so `createProxyUrl`
      leaves it as it is; and it always ends with the URL it was built from. */
  lemma ResolveAbsolute(url: string, base: BaseUrl)
    requires WellFormed(base)
    ensures HasHttpScheme(Resolve(url, base))
    ensures Normalize(Resolve(url, base)) == Resolve(url, base)
    ensures |url| <= |Resolve(url, base)| && Resolve(url, base)[|Resolve(url, base)| - |url|..] == url
  {
    var r := Resolve(url, base);
    var scheme := base.protocol + "//";
    if StartsWith(url, "http://") {
      SchemeOf(url, "http:");
    } else if StartsWith(url, "https://") {
      SchemeOf(url, "https:");
    } else if StartsWith(url, "//") {
      assert r[..|scheme|] == base.protocol + url[..2];
      SchemeOf(r, base.protocol);
    } else if StartsWith(url, "/") {
      StartsWithPrefix(base.origin, url, scheme);
      SchemeOf(r, base.protocol);
    } else {
      StartsWithPrefix(base.origin, BasePath(base.pathname) + url, scheme);
      assert r == base.origin + (BasePath(base.pathname) + url);
      SchemeOf(r, base.protocol);
    }
  }

  /** A relative URL lands in the base's directory. */
  lemma ResolveRelative(url: string, base: BaseUrl, k: nat)
    requires !StartsWith(url, "http://") && !StartsWith(url, "https://") && !StartsWith(url, "/")
    requires k < |base.pathname| && base.pathname[k] == '/'
    requires forall j :: k < j < |base.pathname| ==> base.pathname[j] != '/'
    ensures Resolve(url, base) == base.origin + base.pathname[..k + 1] + url
  {
    BasePathDirectory(base.pathname, k);
  }

  /** The prefixes `processUrl` leaves alone (proxy.ts:78-82). */
  predicate SkippedByHtml(url: string)
    ensures SkippedByHtml(url) ==> !HasHttpScheme(url)
  {
    NoSchemeLead(url);
    StartsWith(url, "data:") || StartsWith(url, "javascript:") || StartsWith(url, "#")
    || StartsWith(url, "about:") || StartsWith(url, "mailto:")
  }

  /** `processUrl` of `rewriteHtml`: empty and skipped URLs are returned as they are,
      every other URL becomes the proxy URL of its resolution. */
  function ProcessUrl(cfg: ProxyConfig, base: BaseUrl, url: string): (r: string)
    ensures url == "" || SkippedByHtml(url) ==> r == url
    ensures url != "" && !SkippedByHtml(url) ==>
      r == "/error" || (|cfg.prefix| < |r| && r[..|cfg.prefix|] == cfg.prefix)
  {
    if url == "" || SkippedByHtml(url) then url
    else ProxyUrl(cfg, Resolve(url, base))
  }

  /** A processed URL is either the URL itself (empty or skipped), or the prefix
      followed by a segment that decodes back to the resolved URL, or `/error` when
      the resolved URL cannot be encoded. */
  lemma ProcessUrlDecodes(cfg: ProxyConfig, base: BaseUrl, url: string)
    requires WellFormed(base)
    ensures url == "" || SkippedByHtml(url) ==> ProcessUrl(cfg, base, url) == url
    ensures url != "" && !SkippedByHtml(url) && Base64.IsLatin1(Resolve(url, base)) ==>
      var r := ProcessUrl(cfg, base, url);
      |cfg.prefix| <= |r| && r[..|cfg.prefix|] == cfg.prefix
      && DecodeBase64(r[|cfg.prefix|..]) == Resolve(url, base)
    ensures url != "" && !SkippedByHtml(url) && !Base64.IsLatin1(Resolve(url, base)) ==>
      ProcessUrl(cfg, base, url) == "/error"
  {
    ResolveAbsolute(url, base);
    ProxyUrlRoundTrip(cfg, Resolve(url, base));
  }

  /** A proxied reference `/service/<segment>` is root-relative, so `processUrl`
      resolves it against the origin and proxies it a second time: rewriting a page
      that is already rewritten changes it again. */
  lemma ProxiedUrlProxiedAgain(base: BaseUrl, seg: string)
    requires WellFormed(base)
    ensures ProcessUrl(DefaultProxyConfig, base, "/service/" + seg) != "/service/" + seg
  {
    ServicePath(seg);
    ProcessedLonger(DefaultProxyConfig, base, "/service/" + seg);
  }

  /** A proxied reference is neither skipped nor `/error`. */
  lemma ServicePath(seg: string)
    ensures "/service/" + seg != "" && !SkippedByHtml("/service/" + seg)
    ensures "/service/" + seg != "/error"
  {
    var url := "/service/" + seg;
    SlashNotSkipped(url);
    assert url[1] == 's';
  }

  /** A proxied URL is `/error` or longer than the prefix and the URL together. */
  lemma ProcessedLonger(cfg: ProxyConfig, base: BaseUrl, url: string)
    requires WellFormed(base) && url != "" && !SkippedByHtml(url)
    ensures ProcessUrl(cfg, base, url) == "/error" || |ProcessUrl(cfg, base, url)| >= |cfg.prefix| + |url|
  {
    ResolveAbsolute(url, base);
    ProxyUrlLonger(cfg, Resolve(url, base));
  }

  /** A proxy URL is `/error` or longer than the prefix and the URL together. */
  lemma ProxyUrlLonger(cfg: ProxyConfig, x: string)
    requires Normalize(x) == x
    ensures ProxyUrl(cfg, x) == "/error" || |ProxyUrl(cfg, x)| >= |cfg.prefix| + |x|
  {
    if Base64.IsLatin1(x) {
      BtoaLonger(x);
    }
  }

  lemma SlashNotSkipped(url: string)
    requires url != [] && url[0] == '/'
    ensures !SkippedByHtml(url)
  {
  }

  /** An encoding is at least as long as what it encodes. */
  lemma BtoaLonger(s: string)
    requires Base64.IsLatin1(s)
    ensures Base64.Btoa(s).Some? && |Base64.Btoa(s).value| >= |s|
  {
    var bs := Base64.BytesOfString(s);
    assert |Base64.Encode(bs)| >= |Base64.SixBitsOf(bs)| >= |bs|;
  }

  /** `blob:` is not on the skip list of `processUrl` (unlike that of the JavaScript
      rewriter), so an HTML attribute holding a `blob:` URL is proxied. */
  lemma BlobProcessed(base: BaseUrl, rest: string)
    ensures ProcessUrl(DefaultProxyConfig, base, "blob:" + rest) != "blob:" + rest
  {
    var url := "blob:" + rest;
    assert url[0] == 'b';
    assert !SkippedByHtml(url);
    var r := ProcessUrl(DefaultProxyConfig, base, url);
    assert r[0] == '/';
  }

  /** Processed URLs carry a `$` only where the URL itself or the prefix does. */
  lemma ProcessUrlDollarFree(cfg: ProxyConfig, base: BaseUrl, url: string)
    requires '$' !in cfg.prefix && '$' !in url
    ensures '$' !in ProcessUrl(cfg, base, url)
  {
    if url != "" && !SkippedByHtml(url) {
      ProxyUrlDollarFree(cfg, Resolve(url, base));
    }
  }
}
