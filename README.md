# browse: the rewriting proxy core, modelled in Dafny

`browse` is a web proxy: a page is fetched on the user's behalf and every URL in
it is rewritten to go through the proxy as `/service/<encoded URL>`. This project
models its core library and proves properties of it:

- the URL codec of `src/lib/proxy.ts`: the default configuration, `encodeUrl` and
  `decodeUrl` (one-time token first, then base64), and `createProxyUrl` with its
  `https://` normalisation and its `/error` fallback when `btoa` throws;
- base64 as the browser's `btoa` and `atob` define it (Latin-1 only, forgiving
  decoding with whitespace removal and optional padding);
- the three rewriters of `src/lib/proxy.ts`: `rewriteHtml` (the `<base>` insertion,
  the attribute table with its `srcset` and meta-refresh special cases, inline
  styles, `<style>` elements and the placement of the runtime script),
  `rewriteCss` and `rewriteJavaScript`. Each regular expression is a matcher
  (`Patterns.FindAt`) and each global `replace` with a callback is a left-to-right
  scan (`Patterns.ReplaceFrom`); `String.prototype.replace` with a string pattern
  replaces the first occurrence and expands `$` patterns in its replacement;
- the one-time token store of `src/lib/token-manager.ts` as a class over a map:
  issue, redeem once within thirty minutes, sweep;
- the state of the two React hooks of `src/lib/ultraviolet-service.ts`: the
  browsing history (filter, prepend, cut to the cap; clear) and the security level,
  which switches one-time tokens on and sweeps the store.

Modules: `Wrappers` (Option), `JsString` (the JavaScript string operations used),
`Base64`, `Tokens`, `ProxyCodec`, `Patterns`, `Resolution` (base URLs and
`processUrl`), `CssRewriter`, `HtmlRewriter`, `JsRewriter`, `ProxyService`.

The rewriters run in the server route, where `typeof window === 'undefined'`, so
`createProxyUrl` takes the base64 path there; the model of that path is the
function `ProxyCodec.ProxyUrl`. The token path is modelled by the methods
`ProxyCodec.EncodeUrl`, `DecodeUrl` and `CreateProxyUrl` over a
`Tokens.TokenManager`, with the browser test, the clock and the fresh UUID as
parameters.

Where the code does something other than its comments suggest, the model follows
the code:

- an attribute is rewritten by the plain path only when its value is written in
  double quotes: the replacement at `proxy.ts:172` looks for `attr="url"`, so a
  single-quoted value is matched but left as it is (`HtmlRewriter.AttrReplacementUntouched`);
- the test at `proxy.ts:163` reads as `(tag === 'meta' && dq) || sq`, so any tag
  whose attributes contain `http-equiv='refresh'` takes the meta-refresh path
  (`HtmlRewriter.RefreshBranchForAnyTag`);
- the `<base>` tag inserted at `proxy.ts:110-113` is matched afterwards by the
  `base`/`href` entry of the attribute table and its URL is itself proxied
  (`HtmlRewriter.BaseTagRewritten`);
- `rewriteCss` skips only empty and `data:` URLs; `javascript:`, `#` and the other
  prefixes `processUrl` skips are resolved and proxied in style sheets;
- the URL a JavaScript match carries is replaced at its first occurrence in the
  whole match text (`proxy.ts:465`), which can lie inside the call itself
  (`JsRewriter.FetchUrlInsideCallName`);
- likewise the meta-refresh target is replaced at its first occurrence in the
  whole `content` value (`proxy.ts:168`), which can lie inside the delay: for
  `10;url=0` the `0` of `10` is the one replaced (`HtmlRewriter.RefreshTargetInDelay`);
- rewriting is not idempotent on references that are already proxied:
  `/service/<segment>` is root-relative, so `processUrl` (`proxy.ts:97-99`) resolves
  it against the origin and proxies it again (`Resolution.ProxiedUrlProxiedAgain`);
- the skip lists differ, so a skipped scheme is not left alone by every rewriter:
  `processUrl` (`proxy.ts:78-82`) has no `blob:`, so an HTML attribute holding a
  `blob:` URL is proxied (`Resolution.BlobProcessed`), and the JavaScript list
  (`proxy.ts:433-437`) has no `mailto:`, so a `mailto:` location assignment is
  rewritten (`JsRewriter.MailtoRewrittenByJs`); `rewriteCss` is the case above.

## Model

| member | source | states |
|---|---|---|
| JsString.ReplaceFirstAt | src/lib/proxy.ts:172 | `s.replace(p, rep)` with a `$`-free replacement splices `rep` in at the first occurrence of `p` and keeps everything else |
| JsString.ReplaceFirstAbsent | src/lib/proxy.ts:159 | `replace` with a pattern that does not occur returns the string unchanged |
| JsString.SplitJoin | src/lib/proxy.ts:155-158 | splitting at a separator the pieces do not contain gives back exactly the joined pieces |
| JsString.JoinSplit | src/lib/proxy.ts:155-158 | joining the pieces of a split with the separator gives back the string |
| JsString.SplitCount | src/lib/proxy.ts:68 | a split has two or more pieces exactly when the separator occurs |
| JsString.TrimUntouched | src/lib/proxy.ts:156-157 | `trim` returns a string that neither starts nor ends with whitespace unchanged |
| Base64.ValuesOfAlphabet | src/lib/proxy.ts:25 | decoding the base64 characters of six-bit values gives the values back |
| Base64.BytesOfSixBitsOf | src/lib/proxy.ts:25 | regrouping the six-bit values of bytes into bytes gives the bytes back |
| Base64.EncodeRoundTrip | src/lib/proxy.ts:25-38 | `atob` of the padded encoding of bytes returns those bytes as a string |
| Base64.BtoaRoundTrip | src/lib/proxy.ts:25-38 | `btoa` succeeds exactly on strings without a character above U+00FF, and `atob` of its output is the input |
| Base64.Btoa | src/lib/proxy.ts:25 | `btoa` succeeds exactly on strings without a character above U+00FF; its output holds only base64 alphabet characters and `=`, and is empty only for the empty string |
| Base64.Atob | src/lib/proxy.ts:38 | what `atob` returns is a binary string: no character above U+00FF |
| Base64.EncodeHasNoWhitespace | src/lib/proxy.ts:25 | an encoding holds no ASCII whitespace, so `atob` strips nothing from it |
| Base64.EncodeAlphabet | src/lib/proxy.ts:25 | an encoding never contains `$` |
| Tokens.Issued | src/lib/token-manager.ts:59-68 | the new token maps to the URL, the current time and unused; every other entry stays |
| Tokens.Redeemed | src/lib/token-manager.ts:70-94 | a lookup hits exactly for a known token that is neither expired nor used, returns its URL, marks only that token used and deletes it when expired |
| Tokens.SweptExactly | src/lib/token-manager.ts:96-110 | the sweep keeps exactly the entries that are neither expired nor used, unchanged, and changes nothing exactly when none is stale |
| Tokens.SweepIdempotent | src/lib/token-manager.ts:96-110 | after a sweep no entry is stale and a second sweep at the same time changes nothing |
| Tokens.Swept | src/lib/token-manager.ts:96-110 | the sweep keeps only entries of the store, each unchanged, and none of them expired or used |
| Tokens.SingleUse | src/lib/token-manager.ts:59-94 | a fresh token redeems to its URL once within thirty minutes inclusive and misses afterwards |
| Tokens.NoSecondRedemption | src/lib/token-manager.ts:84-93 | a redeemed token misses again even after other tokens are issued |
| Tokens.ExpiredNeverRedeems | src/lib/token-manager.ts:77-82 | a token more than thirty minutes old misses and is deleted |
| Tokens.TokenManager.constructor | src/lib/token-manager.ts:18-21 | a new store is empty |
| Tokens.TokenManager.CreateToken | src/lib/token-manager.ts:59-68 | returns the fresh token and leaves the store as `Issued` describes |
| Tokens.TokenManager.GetUrlByToken | src/lib/token-manager.ts:70-94 | returns the URL and leaves the store as `Redeemed` describes |
| Tokens.TokenManager.CleanExpiredTokens | src/lib/token-manager.ts:96-110 | leaves the swept store and reports a change exactly when some entry was stale |
| ProxyCodec.Normalize | src/lib/proxy.ts:49-51 | the result always has an `http://` or `https://` scheme in any case; a URL that has one is kept, any other gets `https://` in front |
| ProxyCodec.NormalizeIdempotent | src/lib/proxy.ts:49-51 | normalising twice is normalising once |
| ProxyCodec.ProxyUrl | src/lib/proxy.ts:46-60 | `/error` when the normalised URL has a character above U+00FF; otherwise the prefix followed by a non-empty run of base64 alphabet characters and `=` |
| ProxyCodec.ProxyUrlRoundTrip | src/lib/proxy.ts:46-60 | with the base64 path the proxy URL is the prefix and a segment that decodes to the normalised URL, or `/error` when that URL has a character above U+00FF |
| ProxyCodec.ProxyUrlDollarFree | src/lib/proxy.ts:54-55 | a proxy URL contains `$` only if the prefix does |
| ProxyCodec.EncodeUrl | src/lib/proxy.ts:18-26 | in a browser with tokens on, a new token is issued for the URL and returned; otherwise `btoa` of the URL and the store is untouched |
| ProxyCodec.DecodeUrl | src/lib/proxy.ts:28-43 | with tokens on, a token hit with a non-empty URL is returned and the store is left as `Redeemed` says; every other case falls back to `atob`, and `''` when that fails |
| ProxyCodec.CreateProxyUrl | src/lib/proxy.ts:46-60 | with tokens on, the prefix and the new token, issued for the normalised URL; otherwise the base64 proxy URL and an unchanged store |
| ProxyCodec.OneTimeRoundTrip | src/lib/proxy.ts:18-60 | in one-time mode the proxy URL's token decodes to the normalised URL once; a second decode falls back to `atob` of the token |
| Patterns.FirstMatch | src/lib/proxy.ts:106 | the leftmost index at which the pattern matches, with nothing matching before it, or no match anywhere |
| Patterns.InsertAfterFirst | src/lib/proxy.ts:110-113 | without a match the string is unchanged; otherwise the text goes right after the match `FirstMatch` finds, which is the leftmost one |
| Patterns.ReplaceFromIdentity | src/lib/proxy.ts:428-466 | a global replace whose callback returns every match unchanged returns the string unchanged |
| Patterns.ReplaceAllWhole | src/lib/proxy.ts:364-390 | a string that is one match as a whole becomes the callback's result |
| Patterns.ReplaceAllOne | src/lib/proxy.ts:148 | a global replace over a text with exactly one match puts the callback's result in its place and keeps the text around it |
| Patterns.ReplaceFromKept | src/lib/proxy.ts:148 | characters at which no match starts are copied unchanged |
| Patterns.FindAt | src/lib/proxy.ts:147-148 | a match found at an index is a non-empty piece of the text starting there |
| Patterns.HeadAt | src/lib/proxy.ts:111 | a match starts with `<head` in any letter case and ends with `>` |
| Patterns.BaseAt | src/lib/proxy.ts:106 | a match is `<base` in any letter case followed by whitespace |
| Patterns.TagAttrAt | src/lib/proxy.ts:147 | a match opens with `<` and the tag name in any letter case, ends with `>`, and its URL capture is non-empty and quote-free |
| Patterns.InlineStyleAt | src/lib/proxy.ts:178 | a match starts with `style=` in any letter case and a quote, and ends with a quote |
| Patterns.StyleBlockAt | src/lib/proxy.ts:192 | a match opens with `<style` and ends with `</style>`, in any letter case |
| Patterns.CssUrlAt | src/lib/proxy.ts:364 | a match opens with `url(` in any letter case, ends with `)`, and captures a non-empty URL without quotes or `)` |
| Patterns.JsFetchAt | src/lib/proxy.ts:400 | a match opens with `fetch(`, ends with `)`, and captures a non-empty quote-free URL |
| Patterns.JsNewUrlAt | src/lib/proxy.ts:402 | a match opens with `new`, ends with `)`, and captures a non-empty quote-free URL |
| Patterns.JsXhrOpenAt | src/lib/proxy.ts:404 | a match opens with `.open(`, ends with `,` or `)`, and captures a non-empty quote-free URL |
| Patterns.JsPropAssignAt | src/lib/proxy.ts:406 | a match opens with `.src` or `.href`, ends with a quote, and captures a non-empty quote-free URL |
| Patterns.JsLocationAt | src/lib/proxy.ts:408 | a match ends with a quote and captures a non-empty quote-free URL |
| Patterns.JsHttpMethodAt | src/lib/proxy.ts:410 | a match opens with `.`, ends with a quote, and captures a non-empty quote-free URL |
| Patterns.JsUrlLiteralAt | src/lib/proxy.ts:413 | a match is a quoted literal whose capture holds no quote and starts with `https://`, `http://` or `//` |
| Resolution.BasePathDirectory | src/lib/proxy.ts:68 | the base path is the pathname up to and including its last `/` |
| Resolution.BasePathRoot | src/lib/proxy.ts:68 | a pathname without `/` has base path `/` |
| Resolution.Resolve | src/lib/proxy.ts:86-102 | a resolved URL always ends with the URL it was built from, and an `http://` or `https://` URL is kept as it is |
| Resolution.SkippedByHtml | src/lib/proxy.ts:78-82 | no skipped URL has an `http(s)://` scheme, so the skip list never keeps a web URL out of the proxy |
| Resolution.ProcessUrl | src/lib/proxy.ts:74-103 | empty and skipped URLs come back as they are; any other becomes `/error` or a URL starting with the prefix |
| Resolution.ResolveAbsolute | src/lib/proxy.ts:86-102 | against an `http:`/`https:` base every resolved URL has an HTTP scheme, is left alone by normalisation and ends with the original URL |
| Resolution.ResolveRelative | src/lib/proxy.ts:101-102 | a relative URL is placed after the origin and the directory of the base pathname |
| Resolution.ProcessUrlDecodes | src/lib/proxy.ts:74-103 | empty and skipped URLs are returned as they are; any other becomes the prefix and a segment that decodes to its resolution, or `/error` |
| Resolution.ProcessUrlDollarFree | src/lib/proxy.ts:74-103 | a processed URL contains no `$` when the prefix has none |
| CssRewriter.RewriteCss | src/lib/proxy.ts:356-357 | with rewriting off the style sheet is returned unchanged |
| CssRewriter.CssUrlAtDeclaration | src/lib/proxy.ts:364 | `url(u)`, `url('u')` and `url("u")` are each one whole match capturing `u` |
| CssRewriter.QuoteOfDeclaration | src/lib/proxy.ts:368-371 | a declaration's quote style is recovered from its own text |
| CssRewriter.RewriteCssSingleUrl | src/lib/proxy.ts:364-390 | one declaration becomes `url(` the same quote, the proxy URL of its resolution, the same quote `)` |
| CssRewriter.RewriteCssDataUntouched | src/lib/proxy.ts:366 | a style sheet whose every `url(...)` holds a `data:` URL is unchanged |
| CssRewriter.CssUrlReplacementDecodes | src/lib/proxy.ts:372-389 | a rewritten declaration keeps its quote and carries a segment that decodes to the resolved URL |
| CssRewriter.CssUrlReplacement | src/lib/proxy.ts:364-390 | an empty or `data:` URL keeps the match; any other is re-emitted as a `url(...)` declaration |
| CssRewriter.CssUrlAbsent | src/lib/proxy.ts:364 | text without `(` holds no `url(...)`, so replacing them all leaves it unchanged |
| CssRewriter.RewriteCssNoParen | src/lib/proxy.ts:356-390 | a style sheet without `(` is returned unchanged |
| CssRewriter.RewriteCssDollarFree | src/lib/proxy.ts:364-390 | the rewritten style sheet has no `$` when neither the sheet nor the prefix has one |
| HtmlRewriter.BaseFoundIn | src/lib/proxy.ts:106-112 | a page holding the inserted base tag passes the `<base\s` test |
| HtmlRewriter.WithBaseTag | src/lib/proxy.ts:105-114 | a page with a base tag, or without a head tag, is unchanged; a page with a head tag has a base tag afterwards |
| HtmlRewriter.BaseTagInserted | src/lib/proxy.ts:105-114 | without a base tag, the base tag goes right after the first `<head>` tag, and afterwards the page has one |
| HtmlRewriter.WithBaseTagIdempotent | src/lib/proxy.ts:105-114 | inserting the base tag twice is inserting it once |
| HtmlRewriter.RefreshKey | src/lib/proxy.ts:164 | `url=`, in any case, starts at the returned index, and everything up to its end is digits, `;`, whitespace or a letter of `url=` |
| HtmlRewriter.RefreshTarget | src/lib/proxy.ts:164 | a refresh target is the non-empty tail right after the `url=` that `RefreshKey` finds, and has no line terminator |
| HtmlRewriter.RefreshTargetOf | src/lib/proxy.ts:164-166 | `digits;` whitespace `url=` target yields exactly that target |
| HtmlRewriter.RefreshTargetShape | src/lib/proxy.ts:164 | a target is found only when the content is digits, `;`, whitespace, `url=` in any case, and that target |
| HtmlRewriter.RefreshTargetExactly | src/lib/proxy.ts:164 | the refresh pattern yields a target exactly when the content has that shape around it |
| HtmlRewriter.RefreshKeepsDelay | src/lib/proxy.ts:166-168 | when the target occurs nowhere before its own place, the delay and `url=` are kept and only the target is processed |
| HtmlRewriter.RefreshTargetInDelay | src/lib/proxy.ts:166-168 | for `10;url=0` the target first occurs inside the delay, and the processed URL goes there |
| HtmlRewriter.SrcsetCandidate | src/lib/proxy.ts:156-157 | a rewritten candidate neither starts nor ends with whitespace |
| HtmlRewriter.SrcsetCandidateRewritten | src/lib/proxy.ts:156-157 | a URL with at most one descriptor, with any whitespace around and between, becomes the processed URL, then a space and the descriptor when there is one |
| HtmlRewriter.CandidateSpaced | src/lib/proxy.ts:156-157 | whitespace, a URL, one space and a descriptor become the processed URL, a space and the same descriptor |
| HtmlRewriter.RewriteSrcset | src/lib/proxy.ts:155-158 | a srcset without a comma is one candidate, rewritten on its own |
| HtmlRewriter.RewriteSrcsetTwo | src/lib/proxy.ts:155-158 | `u1 d1, u2 d2` becomes both processed URLs, each with its own descriptor, joined by `, ` |
| HtmlRewriter.RewriteSrcsetCandidates | src/lib/proxy.ts:155-158 | the candidates of a comma-separated srcset are rewritten one by one and joined by `, ` |
| HtmlRewriter.ReplaceValueAt | src/lib/proxy.ts:172 | `attr="url"` is replaced by `attr="processed"` at its first occurrence, the rest of the tag kept |
| HtmlRewriter.PlainReplacementAt | src/lib/proxy.ts:172 | the plain path puts the processed URL inside the first `attr="url"` of the tag |
| HtmlRewriter.AttrReplacementUntouched | src/lib/proxy.ts:149-172 | a meta tag without refresh is kept; a tag without a double quote and without the single-quoted refresh marker is kept |
| HtmlRewriter.RefreshBranchForAnyTag | src/lib/proxy.ts:163-168 | any tag, meta or not, whose attributes contain `http-equiv='refresh'` takes the refresh path |
| HtmlRewriter.AttrReplacementIsPlain | src/lib/proxy.ts:163-172 | a non-meta, non-srcset tag without the single-quoted refresh marker takes the plain path |
| HtmlRewriter.AttrReplacement | src/lib/proxy.ts:148-173 | on the plain path a tag whose URL `processUrl` keeps (empty or skipped) comes back unchanged |
| HtmlRewriter.BaseTagMatched | src/lib/proxy.ts:112-147 | the inserted `<base href="...">` is one whole match of the `base`/`href` entry capturing the URL |
| HtmlRewriter.BaseTagRewritten | src/lib/proxy.ts:112-172 | the inserted base tag's URL is itself replaced by its processed URL |
| Patterns.InlineCaptureHasParen | src/lib/proxy.ts:178 | every inline-style match holds the `url(` the regular expression demands, so its value contains `(` |
| HtmlRewriter.InlineStyleReplaced | src/lib/proxy.ts:179-186 | the callback on a whole `style=Q pre url(q u q) post Q` match (plain `$`-free declarations around one `url(...)`) re-emits the attribute with that URL processed and single-quoted and everything else kept |
| HtmlRewriter.InlineStyleRewritten | src/lib/proxy.ts:177-189 | a `style` attribute with one `url(...)` among plain declarations gets that URL processed and re-emitted single-quoted, everything else kept |
| Resolution.ProxiedUrlProxiedAgain | src/lib/proxy.ts:97-99 | a proxied reference `/service/<segment>` is root-relative, so `processUrl` changes it again |
| Resolution.BlobProcessed | src/lib/proxy.ts:78-82 | a `blob:` URL is not on `processUrl`'s skip list and is proxied |
| JsRewriter.MailtoRewrittenByJs | src/lib/proxy.ts:433-437 | a `mailto:` URL is not on the JavaScript skip list and a location match holding it is rewritten |
| HtmlRewriter.StyleBlockReplacement | src/lib/proxy.ts:191-197 | an element whose content `rewriteCss` keeps (rewriting off, or no `(`) and holds no `$` (which `replace` would expand) is unchanged |
| HtmlRewriter.StyleBlockRewritten | src/lib/proxy.ts:191-197 | a `<style>` element's content is replaced by `rewriteCss` of it and both tags are kept |
| HtmlRewriter.ScriptPoint | src/lib/proxy.ts:335-350 | the script goes before the last `</body>`, else before the last `</html>`, else at the end |
| HtmlRewriter.ScriptInserted | src/lib/proxy.ts:335-350 | the script appears at that point and removing it gives back the page |
| HtmlRewriter.WithScript | src/lib/proxy.ts:335-350 | inserting the script lengthens the page by exactly the script |
| HtmlRewriter.HtmlRewritten | src/lib/proxy.ts:63-352 | with rewriting off the page comes back unchanged; with it on, the runtime script is always in the result |
| HtmlRewriter.RewriteHtml | src/lib/proxy.ts:63-352 | running the base tag, the attribute table, the two style passes and the script insertion in order gives `HtmlRewritten`; with rewriting off the page comes back unchanged |
| JsRewriter.JsRewritten | src/lib/proxy.ts:394-395 | with rewriting off the script is returned unchanged |
| JsRewriter.SkippedByJs | src/lib/proxy.ts:433-439 | no skipped URL has an `http(s)://` scheme |
| JsRewriter.LooksLikeUrl | src/lib/proxy.ts:416-421 | for an `http(s)://` URL the validator accepts exactly when the URL has a dot, no space and no `//*/` |
| JsRewriter.JsReplacement | src/lib/proxy.ts:428-466 | a match whose URL is not rewritten, or does not occur in the match text, is kept |
| JsRewriter.RewriteJavaScript | src/lib/proxy.ts:394-469 | the seven patterns applied in order give the specified result, and with rewriting off the script is returned unchanged |
| JsRewriter.JsReplacementKeeps | src/lib/proxy.ts:430-443 | a match whose URL is empty, skipped or rejected by the validator is kept |
| JsRewriter.JsPassUntouched | src/lib/proxy.ts:428-466 | a pass in which every match's URL is kept leaves the script unchanged |
| JsRewriter.JsPassesUntouched | src/lib/proxy.ts:427-466 | a script in which no pattern matches is unchanged by all passes |
| JsRewriter.JsReplacementAt | src/lib/proxy.ts:445-465 | a rewritten match keeps everything around the first occurrence of its URL and puts the proxy URL of the resolved URL there |
| JsRewriter.JsProxyUrlDecodes | src/lib/proxy.ts:445-461 | that proxy URL is the prefix and a segment decoding to the resolved URL, or `/error` |
| JsRewriter.FetchMatched | src/lib/proxy.ts:400 | `fetch('u')` with either quote is one whole match capturing `u` |
| JsRewriter.FetchRewritten | src/lib/proxy.ts:400-466 | `fetch('u')` becomes `fetch('<proxy URL>')` in the same quotes when `u` does not occur inside `fetch(` |
| JsRewriter.FetchUrlInsideCallName | src/lib/proxy.ts:465 | in `fetch('h')` the first occurrence of the URL `h` is the `h` of `fetch`, which is the one replaced |
| ProxyService.WithoutKeeps | src/lib/ultraviolet-service.ts:94 | the filter keeps every entry other than the URL, with its multiplicity, and drops the URL |
| ProxyService.WithoutDistinct | src/lib/ultraviolet-service.ts:94 | filtering keeps a duplicate-free history duplicate-free |
| ProxyService.AddedToHistory | src/lib/ultraviolet-service.ts:91-98 | with a cap of one or more the URL comes first; a non-negative cap bounds the length; at most one entry is added |
| ProxyService.AddedPutsFirst | src/lib/ultraviolet-service.ts:94-96 | with a cap of one or more the URL comes first, nowhere else, followed by the earlier history without it, in order, cut to size |
| ProxyService.AddedBounded | src/lib/ultraviolet-service.ts:96 | a non-negative cap bounds the history, which is full or holds the whole filtered history |
| ProxyService.AddedKeepsRecent | src/lib/ultraviolet-service.ts:94-96 | when the cap has room for the whole earlier history, no earlier entry is lost |
| ProxyService.AddedDistinct | src/lib/ultraviolet-service.ts:91-98 | adding keeps a duplicate-free history duplicate-free |
| ProxyService.AddedIdempotent | src/lib/ultraviolet-service.ts:91-98 | adding the same URL twice in a row equals adding it once, for a non-negative cap |
| ProxyService.AddedNegativeMax | src/lib/ultraviolet-service.ts:96 | a negative cap cuts from the back, so a short history loses even the added URL |
| ProxyService.ProxyHistory.constructor | src/lib/ultraviolet-service.ts:66-67 | a new history is empty, with the given cap |
| ProxyService.ProxyHistory.Default | src/lib/ultraviolet-service.ts:66-67 | without an argument the cap is ten and the history is empty |
| ProxyService.ProxyHistory.AddToHistory | src/lib/ultraviolet-service.ts:91-99 | the new history is `AddedToHistory` of the old one, and no duplicate and no overflow appears |
| ProxyService.ProxyHistory.ClearHistory | src/lib/ultraviolet-service.ts:102-107 | the history becomes empty |
| ProxyService.WithSecurityLevel | src/lib/ultraviolet-service.ts:24 | one-time tokens are on exactly at the `one-time` level; prefix and rewriting are kept |
| ProxyService.ProxyServiceState.constructor | src/lib/ultraviolet-service.ts:17-20 | the initial level is `one-time`, nothing loading, no error, no proxy URL |
| ProxyService.ProxyServiceState.ApplySecurityLevel | src/lib/ultraviolet-service.ts:23-30 | the configuration follows the level, and at `one-time` the token store is swept once |
| ProxyService.ProxyServiceState.SetSecurityLevel | src/lib/ultraviolet-service.ts:20-37 | the level is set; only a change re-runs the effect |
| ProxyService.ProxyServiceState.NavigateTo | src/lib/ultraviolet-service.ts:40-53 | the proxy URL is `createProxyUrl` of the URL under the shared configuration, with no error and loading off |
| ProxyService.Mount | src/lib/ultraviolet-service.ts:16-37 | a mounted hook has one-time tokens on and a swept store; on the default configuration that is `/service/` with rewriting and tokens on |

## Left out

- The body of the client-side runtime script (`proxy.ts:200-331`) is the constant
  `HtmlRewriter.RuntimeScript`; what that script does in the browser is not modelled.
- URL parsing: the base URL's `href`, `protocol`, `origin` and `pathname` are given
  as a `Resolution.BaseUrl`; `new URL(baseUrl)` throwing on an invalid base is not
  modelled (`Resolution.WellFormed` states what the lemmas require of a parsed one).
- Token minting inside the rewriters: they run where `window` is undefined, so
  they always take the base64 path; a rewrite in a browser with tokens on is not
  modelled.
- `encodeUrl` and `decodeUrl` read `defaultProxyConfig.useOneTimeTokens` rather than
  the configuration passed in; the model reads the configuration passed in, which
  is the same object for every caller in the core.
- `localStorage` (token persistence, the saved history), `console.error`, and the
  `try`/`catch` around storage are left out; they change no returned value.
- `uuidv4()` and `Date.now()` are parameters; that a UUID is new is a precondition
  of `Tokens.TokenManager.CreateToken`.
- `TokenManager.getInstance()`: the single instance is one `TokenManager` object
  passed to whoever uses it.
- The five-minute `setInterval` sweep and its `clearInterval` (`ultraviolet-service.ts:31-35`):
  timers are not modelled; the sweep the effect runs at once is.
- The `catch` branch of `navigateTo` (`ultraviolet-service.ts:49-51`) cannot be
  reached, because `createProxyUrl` turns every error into `/error`.
- React rendering and the `loading` flag seen between renders; only the state after
  each call is modelled.
- Concurrency and re-entrancy of the hooks and the token store.
- The regular expressions are hand-written matchers; that each accepts exactly what
  the JavaScript engine's backtracking would is argued in their comments, not proved.
- JavaScript strings are sequences of UTF-16 code units, while a Dafny `char` is a
  Unicode scalar value: a lone surrogate cannot be represented, and a character
  outside the Basic Multilingual Plane is one `char` where JavaScript has two. No
  result here depends on the difference, because `btoa` rejects both alike (every
  such unit or character is above U+00FF). A cap `maxHistoryItems` is an integer.
- JsRewriter.FetchRewritten: stated only for URLs that do not occur inside `fetch(`,
  because for those the replacement lands inside the call name
  (`JsRewriter.FetchUrlInsideCallName`).
- HtmlRewriter.SrcsetCandidateRewritten: stated for a candidate with at most one
  descriptor and a prefix that does not start with whitespace; a third word and
  beyond, which the code drops, is not characterised.
- HtmlRewriter.RefreshKeepsDelay: stated when the target does not occur earlier in
  the content; when it does, the replacement lands in the delay
  (`HtmlRewriter.RefreshTargetInDelay`).
- HtmlRewriter.InlineStyleRewritten: stated for one `url(...)` whose URL and the
  prefix hold no `$`, between declarations without quotes, `(` or `$`; several
  references in one value are not characterised as a whole.
- HtmlRewriter.InlineStyleReplaced: stated for the same single `url(...)` value as
  `InlineStyleRewritten`, for the same reason.
- HtmlRewriter.StyleBlockRewritten: stated for one element whose content holds no
  `</style>` and no `$`, with a prefix without `$`.
- RewriteHtml: the whole-page result is the composition `HtmlRewritten`; each pass
  is characterised on its own tags and values (`WithBaseTag`, `AttrReplacement`,
  `InlineStyleRewritten`, `StyleBlockRewritten`, `WithScript`), and no lemma states
  what the composition does to a page with several tags that interact.
- ProxyCodec.OneTimeRoundTrip: the round trip holds for a decode in the browser
  with tokens on. Nothing in the application decodes there: `decodeUrl` is called
  from the server route, where `window` is undefined and tokens are off, so a token
  is never redeemed and `atob` of a UUID fails to `''`.
- The pattern matchers' contracts state how a match opens and ends and what its
  URL capture looks like; that each accepts exactly what the regular expression
  does is not proved (see the line on matchers above).
