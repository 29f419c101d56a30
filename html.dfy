/**
 * `rewriteHtml` of `src/lib/proxy.ts`: inserts a `<base>` tag into `<head>` when the
 * page has none, rewrites the URL attributes of a fixed table of tags, the
 * `url(...)` references of inline styles and the content of `<style>` elements,
 * and injects the client-side runtime script.
 */
module HtmlRewriter {
  import opened Wrappers
  import opened JsString
  import opened ProxyCodec
  import opened Resolution
  import opened Patterns
  import opened CssRewriter

  /** The tags and attributes rewritten, in the order of the passes (proxy.ts:117-143). */
  const AttributeTable: seq<(string, string)> := [
    ("a", "href"), ("area", "href"), ("link", "href"), ("base", "href"),
    ("img", "src"), ("img", "srcset"), ("script", "src"), ("audio", "src"),
    ("video", "src"), ("source", "src"), ("track", "src"), ("embed", "src"),
    ("iframe", "src"), ("object", "data"), ("form", "action"), ("meta", "content"),
    ("button", "formaction"), ("input", "formaction")
  ]

  /** The client-side runtime script. Its body is browser behaviour outside this
      model; only where it is placed is modelled. */
  const RuntimeScript: string := "\n<script>\n  /* client-side URL rewriting runtime */\n</script>"

  // ---------------------------------------------------------------- base tag

  function BaseTag(href: string): string {
    "\n<base href=\"" + href + "\">"
  }

  /** Lines 105-114: without a `<base` tag, the first `<head>` tag gets one after it. */
  function WithBaseTag(base: BaseUrl, html: string): (r: string)
    ensures Test(BaseOpen, html) || !Test(HeadOpen, html) ==> r == html
    ensures Test(HeadOpen, html) ==> Test(BaseOpen, r)
  {
    InsertedBaseFound(base, html);
    if Test(BaseOpen, html) then html
    else InsertAfterFirst(HeadOpen, html, BaseTag(base.href))
  }

  /** Inserting the base tag after the first `<head>` tag gives the page one. */
  lemma InsertedBaseFound(base: BaseUrl, html: string)
    ensures Test(HeadOpen, html) ==> Test(BaseOpen, InsertAfterFirst(HeadOpen, html, BaseTag(base.href)))
  {
    match FirstMatch(HeadOpen, html, 0)
    case None =>
    case Some((_, m)) => BaseFoundIn(html[..m.end], base.href, html[m.end..]);
  }

  /** A page with the inserted base tag has a base tag. */
  lemma BaseFoundIn(prefix: string, href: string, suffix: string)
    ensures Test(BaseOpen, prefix + BaseTag(href) + suffix)
  {
    var s := prefix + BaseTag(href) + suffix;
    var j := |prefix| + 1;
    assert s[j..j + 6] == "<base ";
    assert StartsAtCi(s, j, "<base");
    assert FindAt(BaseOpen, s, j).Some?;
  }

  /** Without a base tag, the base tag lands right after the first `<head>` tag, and
      the page then has one. */
  lemma BaseTagInserted(base: BaseUrl, html: string, k: nat, m: Match)
    requires !Test(BaseOpen, html)
    requires FirstMatch(HeadOpen, html, 0) == Some((k, m))
    ensures WithBaseTag(base, html) == html[..m.end] + BaseTag(base.href) + html[m.end..]
    ensures Test(BaseOpen, WithBaseTag(base, html))
  {
    BaseFoundIn(html[..m.end], base.href, html[m.end..]);
  }

  /** Inserting the base tag a second time changes nothing. */
  lemma WithBaseTagIdempotent(base: BaseUrl, html: string)
    ensures WithBaseTag(base, WithBaseTag(base, html)) == WithBaseTag(base, html)
  {
    if !Test(BaseOpen, html) {
      match FirstMatch(HeadOpen, html, 0)
      case None =>
      case Some((k, m)) => BaseTagInserted(base, html, k, m);
    }
  }

  // ---------------------------------------------------------------- meta refresh

  predicate HasDqRefresh(attribs: string) {
    Contains(attribs, "http-equiv=\"refresh\"")
  }

  predicate HasSqRefresh(attribs: string) {
    Contains(attribs, "http-equiv='refresh'")
  }

  predicate NoLineTerminator(t: string) {
    forall k :: 0 <= k < |t| ==> !IsLineTerminator(t[k])
  }

  /** The pieces of a refresh value `/^\d+;\s*url=(.+)$/i`: one or more digits (before
      the `;`), whitespace, `url=` in any letter case, and a non-empty target without
      line terminators. */
  predicate RefreshShape(delay: string, spaces: string, key: string, target: string) {
    && delay != [] && (forall k :: 0 <= k < |delay| ==> IsDigit(delay[k]))
    && AllSpace(spaces)
    && |key| == 4 && (forall k :: 0 <= k < 4 ==> Lower(key[k]) == Lower("url="[k]))
    && target != [] && NoLineTerminator(target)
  }

  /** Where `url=` starts in the `\d+;\s*url=` part at the start of a refresh value:
      the digits end at a `;`, and only whitespace lies between it and `url=`. */
  function RefreshKey(content: string): (r: Option<nat>)
    ensures r.Some? ==> r.value + 4 <= |content| && StartsAtCi(content, r.value, "url=")
    ensures r.Some? ==> 0 < SkipDigits(content, 0) < r.value && content[SkipDigits(content, 0)] == ';'
    ensures r.Some? ==> forall k :: SkipDigits(content, 0) < k < r.value ==> IsSpace(content[k])
  {
    var d := SkipDigits(content, 0);
    if d == 0 || d == |content| || content[d] != ';' then None
    else
      var w := SkipSpaces(content, d + 1);
      if !StartsAtCi(content, w, "url=") then None
      else Some(w)
  }

  /** The target of a refresh value: what follows the `url=` that `RefreshKey` finds,
      when it is non-empty and has no line terminator. */
  function RefreshTarget(content: string): (r: Option<string>)
    ensures r.Some? ==> 0 < |r.value| && |r.value| + 6 <= |content|
    ensures r.Some? ==> r.value == content[|content| - |r.value|..] && NoLineTerminator(r.value)
    ensures r.Some? ==> RefreshKey(content) == Some(|content| - |r.value| - 4)
  {
    match RefreshKey(content)
    case None => None
    case Some(w) =>
      var e := w + 4;
      if e < |content| && NoLineTerminator(content[e..]) then
        var t := content[e..];
        assert |content| - |t| == e && |content| - |t| - 4 == w;
        Some(t)
      else None
  }

  lemma RefreshKeyOf(delay: string, spaces: string, key: string, target: string)
    requires delay != [] && forall k :: 0 <= k < |delay| ==> IsDigit(delay[k])
    requires AllSpace(spaces)
    requires |key| == 4 && forall k :: 0 <= k < 4 ==> Lower(key[k]) == Lower("url="[k])
    ensures RefreshKey(delay + ";" + spaces + key + target) == Some(|delay| + |spaces| + 1)
  {
    var c := delay + ";" + spaces + key + target;
    var d := |delay|;
    var w := d + 1 + |spaces|;
    assert forall k :: 0 <= k < d ==> c[k] == delay[k];
    assert c[d] == ';';
    assert SkipDigits(c, 0) == d;
    assert forall k :: d + 1 <= k < w ==> c[k] == spaces[k - d - 1];
    assert c[w] == key[0] && Lower(key[0]) == 'u';
    assert SkipSpaces(c, d + 1) == w;
    assert forall k :: 0 <= k < 4 ==> c[w + k] == key[k];
    assert StartsAtCi(c, w, "url=");
  }

  /** Every refresh value of the documented shape yields its target. */
  lemma RefreshTargetOf(delay: string, spaces: string, key: string, target: string)
    requires RefreshShape(delay, spaces, key, target)
    ensures RefreshTarget(delay + ";" + spaces + key + target) == Some(target)
  {
    var c := delay + ";" + spaces + key + target;
    RefreshKeyOf(delay, spaces, key, target);
    assert c[|delay| + |spaces| + 5..] == target;
  }

  /** A target found is the tail of a value of the documented shape. */
  lemma RefreshTargetShape(content: string, target: string)
    requires RefreshTarget(content) == Some(target)
    ensures exists delay, spaces, key :: RefreshShape(delay, spaces, key, target) && content == delay + ";" + spaces + key + target
  {
    var w := |content| - |target| - 4;
    var d := SkipDigits(content, 0);
    var delay, spaces, key := content[..d], content[d + 1..w], content[w..w + 4];
    assert forall k :: 0 <= k < 4 ==> key[k] == content[w + k];
    assert RefreshShape(delay, spaces, key, target);
    assert content[d..d + 1] == ";";
    assert content == content[..d] + content[d..d + 1] + content[d + 1..w] + content[w..w + 4] + content[w + 4..];
  }

  /** `url.match(/^\d+;\s*url=(.+)$/i)` captures `target` exactly when the value is
      digits, `;`, whitespace, `url=` in any case and then `target`; otherwise it does
      not match and line 172 is used instead. */
  lemma RefreshTargetExactly(content: string, target: string)
    ensures RefreshTarget(content) == Some(target)
        <==> exists delay, spaces, key :: RefreshShape(delay, spaces, key, target) && content == delay + ";" + spaces + key + target
  {
    if RefreshTarget(content) == Some(target) {
      RefreshTargetShape(content, target);
    }
    if exists delay, spaces, key :: RefreshShape(delay, spaces, key, target) && content == delay + ";" + spaces + key + target {
      var delay, spaces, key :| RefreshShape(delay, spaces, key, target) && content == delay + ";" + spaces + key + target;
      RefreshTargetOf(delay, spaces, key, target);
    }
  }

  /** Lines 164-168 on the content value: the first occurrence of the target is
      replaced by its processed form. */
  function RefreshRewrite(cfg: ProxyConfig, base: BaseUrl, content: string, target: string): string {
    ReplaceFirst(content, target, ProcessUrl(cfg, base, target))
  }

  /** When the target does not also occur inside the `delay;url=` part, the delay and
      the `url=` key are kept and only the target is processed. */
  lemma RefreshKeepsDelay(cfg: ProxyConfig, base: BaseUrl, content: string, target: string)
    requires RefreshTarget(content) == Some(target)
    requires forall j :: 0 <= j < |content| - |target| ==> !StartsAt(content, j, target)
    requires '$' !in cfg.prefix && '$' !in target
    ensures RefreshRewrite(cfg, base, content, target)
         == content[..|content| - |target|] + ProcessUrl(cfg, base, target)
  {
    ProcessUrlDollarFree(cfg, base, target);
    ReplaceFirstSuffix(content, target, ProcessUrl(cfg, base, target));
  }

  /** Line 167 replaces the first occurrence of the target in the whole value, which
      may lie inside the delay: in `10;url=0` the `0` of the delay is the one replaced,
      and the target itself is left as it was. */
  lemma RefreshTargetInDelay(cfg: ProxyConfig, base: BaseUrl)
    requires '$' !in cfg.prefix
    ensures RefreshTarget("10;url=0") == Some("0")
    ensures RefreshRewrite(cfg, base, "10;url=0", "0") == "1" + ProcessUrl(cfg, base, "0") + ";url=0"
  {
    DelayedTargetFound();
    ProcessUrlDollarFree(cfg, base, "0");
    DelayDigitReplaced(ProcessUrl(cfg, base, "0"));
  }

  lemma DelayedTargetFound()
    ensures RefreshTarget("10;url=0") == Some("0")
  {
    assert "10;url=0" == "10" + ";" + "" + "url=" + "0";
    assert RefreshShape("10", "", "url=", "0");
    RefreshTargetOf("10", "", "url=", "0");
  }

  lemma DelayDigitReplaced(rep: string)
    requires '$' !in rep
    ensures ReplaceFirst("10;url=0", "0", rep) == "1" + rep + ";url=0"
  {
    var c := "10;url=0";
    assert c[0..1] == "1" && c[1..2] == "0";
    ReplaceFirstAt(c, "0", rep, 1);
    assert c[..1] == "1" && c[2..] == ";url=0";
  }

  // ---------------------------------------------------------------- srcset

  /** The end of the run of non-whitespace starting at `i`. */
  function WordEnd(s: string, i: nat): (j: nat)
    requires i <= |s|
    ensures i <= j <= |s|
    ensures forall k :: i <= k < j ==> !IsSpace(s[k])
    ensures j < |s| ==> IsSpace(s[j])
    decreases |s| - i
  {
    if i < |s| && !IsSpace(s[i]) then WordEnd(s, i + 1) else i
  }

  /** One srcset candidate (lines 156-157): its first two whitespace-separated words,
      the URL processed and the descriptor kept, joined by a space and trimmed. */
  function SrcsetCandidate(cfg: ProxyConfig, base: BaseUrl, src: string): (r: string)
    ensures r != [] ==> !IsSpace(r[0]) && !IsSpace(r[|r| - 1])
  {
    var w := Trim(src);
    var e1 := WordEnd(w, 0);
    var d0 := SkipSpaces(w, e1);
    Trim(ProcessUrl(cfg, base, w[..e1]) + " " + w[d0..WordEnd(w, d0)])
  }

  /** Lines 155-158: candidates are split at commas, rewritten and joined by `, `. */
  function RewriteSrcset(cfg: ProxyConfig, base: BaseUrl, srcset: string): (r: string)
    ensures ',' !in srcset ==> r == SrcsetCandidate(cfg, base, srcset)
  {
    var parts := Split(srcset, ',');
    var candidates := seq(|parts|, k requires 0 <= k < |parts| => SrcsetCandidate(cfg, base, parts[k]));
    assert ',' !in srcset ==> |candidates| == 1 && candidates[0] == SrcsetCandidate(cfg, base, srcset);
    Join(candidates, ", ")
  }

  /** A run of non-whitespace from `i` to `j`, ended by whitespace or the end of the
      string, is the word `WordEnd` finds. */
  lemma {:induction false} WordEndAt(s: string, i: nat, j: nat)
    requires i <= j <= |s|
    requires forall k :: i <= k < j ==> !IsSpace(s[k])
    requires j < |s| ==> IsSpace(s[j])
    ensures WordEnd(s, i) == j
    decreases j - i
  {
    if i < j {
      WordEndAt(s, i + 1, j);
    }
  }

  /** A run of whitespace from `i` to `j`, ended by non-whitespace or the end of the
      string, is what `SkipSpaces` skips. */
  lemma {:induction false} SkipSpacesAt(s: string, i: nat, j: nat)
    requires i <= j <= |s|
    requires forall k :: i <= k < j ==> IsSpace(s[k])
    requires j < |s| ==> !IsSpace(s[j])
    ensures SkipSpaces(s, i) == j
    decreases j - i
  {
    if i < j {
      SkipSpacesAt(s, i + 1, j);
    }
  }

  /** A word followed by whitespace ends where the whitespace starts. */
  lemma WordBefore(s: string, word: string, rest: string)
    requires s == word + rest && NoSpace(word) && rest != [] && IsSpace(rest[0])
    ensures WordEnd(s, 0) == |word| && s[..|word|] == word
  {
    SpacesBefore(word, rest);
    ConcatSlices(word, rest);
    assert s[|word|] == rest[0];
    WordEndAt(s, 0, |word|);
  }

  /** Whitespace between `a` and a text that starts with a non-whitespace character
      is skipped up to that text. */
  lemma SpacesBetween(s: string, a: string, ws: string, rest: string)
    requires s == a + ws + rest && AllSpace(ws) && rest != [] && !IsSpace(rest[0])
    ensures SkipSpaces(s, |a|) == |a| + |ws|
  {
    assert s == (a + ws) + rest;
    SpacesAfter(a, ws);
    assert forall k :: |a| <= k < |a| + |ws| ==> s[k] == (a + ws)[k];
    assert s[|a| + |ws|] == rest[0];
    SkipSpacesAt(s, |a|, |a| + |ws|);
  }

  /** A final word runs to the end. */
  lemma WordAtEnd(s: string, a: string, word: string)
    requires s == a + word && NoSpace(word)
    ensures WordEnd(s, |a|) == |s| && s[|a|..|s|] == word
  {
    SpacesAfter(a, word);
    ConcatSlices(a, word);
    WordEndAt(s, |a|, |s|);
  }

  /** The URL word of `url ws descriptor` ends at the whitespace. */
  lemma CandidateUrlWord(core: string, url: string, ws: string, descriptor: string)
    requires url != [] && NoSpace(url) && ws != [] && AllSpace(ws)
    requires descriptor != [] && NoSpace(descriptor)
    requires core == url + ws + descriptor
    ensures WordEnd(core, 0) == |url| && core[..|url|] == url
  {
    var rest := ws + descriptor;
    assert rest[0] == ws[0];
    assert core == url + rest;
    WordBefore(core, url, rest);
  }

  /** The whitespace of `url ws descriptor` is skipped up to the descriptor. */
  lemma CandidateGap(core: string, url: string, ws: string, descriptor: string)
    requires url != [] && NoSpace(url) && ws != [] && AllSpace(ws)
    requires descriptor != [] && NoSpace(descriptor)
    requires core == url + ws + descriptor
    ensures SkipSpaces(core, |url|) == |url| + |ws|
  {
    SpacesBetween(core, url, ws, descriptor);
  }

  /** The descriptor word of `url ws descriptor` runs to the end. */
  lemma CandidateDescriptorWord(core: string, url: string, ws: string, descriptor: string)
    requires url != [] && NoSpace(url) && ws != [] && AllSpace(ws)
    requires descriptor != [] && NoSpace(descriptor)
    requires core == url + ws + descriptor
    ensures WordEnd(core, |url| + |ws|) == |core| && core[|url| + |ws|..|core|] == descriptor
  {
    var a := url + ws;
    assert core == a + descriptor;
    WordAtEnd(core, a, descriptor);
  }

  /** The two words of `url ws descriptor` are where they were put. */
  lemma CandidateWords(core: string, url: string, ws: string, descriptor: string)
    requires url != [] && NoSpace(url) && ws != [] && AllSpace(ws)
    requires descriptor != [] && NoSpace(descriptor)
    requires core == url + ws + descriptor
    ensures WordEnd(core, 0) == |url|
    ensures SkipSpaces(core, |url|) == |url| + |ws|
    ensures WordEnd(core, |url| + |ws|) == |core|
    ensures core[..|url|] == url && core[|url| + |ws|..|core|] == descriptor
  {
    CandidateUrlWord(core, url, ws, descriptor);
    CandidateGap(core, url, ws, descriptor);
    CandidateDescriptorWord(core, url, ws, descriptor);
  }

  /** The candidate function on a trimmed text whose words are known. */
  lemma CandidateOfWords(cfg: ProxyConfig, base: BaseUrl, src: string, w: string, url: string, d0: nat, descriptor: string)
    requires Trim(src) == w && WordEnd(w, 0) == |url| && w[..|url|] == url
    requires SkipSpaces(w, |url|) == d0 && d0 <= WordEnd(w, d0) && w[d0..WordEnd(w, d0)] == descriptor
    ensures SrcsetCandidate(cfg, base, src) == Trim(ProcessUrl(cfg, base, url) + " " + descriptor)
  {
  }

  /** A candidate without a descriptor is its processed URL. */
  lemma CandidateAlone(cfg: ProxyConfig, base: BaseUrl, ws1: string, url: string, ws: string)
    requires AllSpace(ws1) && AllSpace(ws)
    requires url != [] && NoSpace(url)
    requires cfg.prefix != [] && !IsSpace(cfg.prefix[0])
    ensures SrcsetCandidate(cfg, base, ws1 + url + ws) == ProcessUrl(cfg, base, url)
  {
    TrimOf(ws1, url, ws);
    WordEndAt(url, 0, |url|);
    SkipSpacesAt(url, |url|, |url|);
    WordEndAt(url, |url|, |url|);
    assert url[..|url|] == url && url[|url|..|url|] == [];
    CandidateOfWords(cfg, base, ws1 + url + ws, url, url, |url|, []);
    ProcessUrlAlone(cfg, base, url);
  }

  /** A processed URL followed by the space of an empty descriptor trims back to the
      processed URL. */
  lemma ProcessUrlAlone(cfg: ProxyConfig, base: BaseUrl, url: string)
    requires url != [] && NoSpace(url)
    requires cfg.prefix != [] && !IsSpace(cfg.prefix[0])
    ensures Trim(ProcessUrl(cfg, base, url) + " " + []) == ProcessUrl(cfg, base, url)
  {
    ProcessUrlSolid(cfg, base, url);
    TrimSpaceAfter(ProcessUrl(cfg, base, url));
  }

  /** A candidate with a descriptor is its processed URL, a space and the descriptor. */
  lemma CandidateDescribed(cfg: ProxyConfig, base: BaseUrl, ws1: string, url: string, ws2: string, descriptor: string, ws3: string)
    requires AllSpace(ws1) && AllSpace(ws2) && AllSpace(ws3) && ws2 != []
    requires url != [] && NoSpace(url) && descriptor != [] && NoSpace(descriptor)
    requires cfg.prefix != [] && !IsSpace(cfg.prefix[0])
    ensures SrcsetCandidate(cfg, base, ws1 + (url + ws2 + descriptor) + ws3) == ProcessUrl(cfg, base, url) + " " + descriptor
  {
    CandidateDescribedWords(cfg, base, ws1, url, ws2, descriptor, ws3);
    ProcessUrlDescribed(cfg, base, url, descriptor);
  }

  /** The words of a described candidate reach the candidate function unchanged. */
  lemma CandidateDescribedWords(cfg: ProxyConfig, base: BaseUrl, ws1: string, url: string, ws2: string, descriptor: string, ws3: string)
    requires AllSpace(ws1) && AllSpace(ws2) && AllSpace(ws3) && ws2 != []
    requires url != [] && NoSpace(url) && descriptor != [] && NoSpace(descriptor)
    ensures SrcsetCandidate(cfg, base, ws1 + (url + ws2 + descriptor) + ws3) == Trim(ProcessUrl(cfg, base, url) + " " + descriptor)
  {
    var core := url + ws2 + descriptor;
    DescribedTrimmed(ws1, url, ws2, descriptor, ws3);
    CandidateWords(core, url, ws2, descriptor);
    CandidateOfWords(cfg, base, ws1 + core + ws3, core, url, |url| + |ws2|, descriptor);
  }

  /** Trimming a described candidate leaves its URL, whitespace and descriptor. */
  lemma DescribedTrimmed(ws1: string, url: string, ws2: string, descriptor: string, ws3: string)
    requires AllSpace(ws1) && AllSpace(ws3)
    requires url != [] && NoSpace(url) && descriptor != [] && NoSpace(descriptor)
    ensures Trim(ws1 + (url + ws2 + descriptor) + ws3) == url + ws2 + descriptor
  {
    var core := url + ws2 + descriptor;
    assert core[0] == url[0] && core[|core| - 1] == descriptor[|descriptor| - 1];
    TrimOf(ws1, core, ws3);
  }

  /** A processed URL, a space and a descriptor are left alone by `trim`. */
  lemma ProcessUrlDescribed(cfg: ProxyConfig, base: BaseUrl, url: string, descriptor: string)
    requires url != [] && NoSpace(url) && descriptor != [] && NoSpace(descriptor)
    requires cfg.prefix != [] && !IsSpace(cfg.prefix[0])
    ensures Trim(ProcessUrl(cfg, base, url) + " " + descriptor) == ProcessUrl(cfg, base, url) + " " + descriptor
  {
    var p := ProcessUrl(cfg, base, url);
    ProcessUrlSolid(cfg, base, url);
    var t := p + " " + descriptor;
    assert t[0] == p[0] && t[|t| - 1] == descriptor[|descriptor| - 1];
    TrimUntouched(t);
  }

  /** A URL without whitespace is processed to a non-empty text that neither starts
      nor ends with whitespace, when the prefix does not start with whitespace. */
  lemma ProcessUrlSolid(cfg: ProxyConfig, base: BaseUrl, url: string)
    requires url != [] && NoSpace(url)
    requires cfg.prefix != [] && !IsSpace(cfg.prefix[0])
    ensures var p := ProcessUrl(cfg, base, url);
      p != [] && !IsSpace(p[0]) && !IsSpace(p[|p| - 1])
  {
    if url != "" && !SkippedByHtml(url) {
      var r := Resolve(url, base);
      var p := ProxyUrl(cfg, r);
      if Base64.IsLatin1(Normalize(r)) {
        assert p[0] == p[..|cfg.prefix|][0];
        EncodedNotSpace(p[|p| - 1]);
      }
    }
  }

  /** Neither the padding nor a base64 alphabet character is whitespace. */
  lemma EncodedNotSpace(c: char)
    requires c == '=' || Base64.ValueOf(c).Some?
    ensures !IsSpace(c)
  {
  }

  /** A candidate, surrounded by any whitespace, with or without a descriptor, becomes
      the processed URL followed by a space and the same descriptor, or the processed
      URL alone. */
  lemma SrcsetCandidateRewritten(cfg: ProxyConfig, base: BaseUrl, ws1: string, url: string, ws2: string, descriptor: string, ws3: string)
    requires AllSpace(ws1) && AllSpace(ws2) && AllSpace(ws3)
    requires url != [] && NoSpace(url) && NoSpace(descriptor)
    requires descriptor != [] ==> ws2 != []
    requires cfg.prefix != [] && !IsSpace(cfg.prefix[0])
    ensures SrcsetCandidate(cfg, base, ws1 + url + ws2 + descriptor + ws3)
         == if descriptor == [] then ProcessUrl(cfg, base, url) else ProcessUrl(cfg, base, url) + " " + descriptor
  {
    if descriptor == [] {
      var ws := ws2 + ws3;
      assert ws1 + url + ws2 + descriptor + ws3 == ws1 + url + ws;
      assert forall k :: 0 <= k < |ws| ==> ws[k] == if k < |ws2| then ws2[k] else ws3[k - |ws2|];
      CandidateAlone(cfg, base, ws1, url, ws);
    } else {
      assert ws1 + url + ws2 + descriptor + ws3 == ws1 + (url + ws2 + descriptor) + ws3;
      CandidateDescribed(cfg, base, ws1, url, ws2, descriptor, ws3);
    }
  }

  /** Every comma-separated candidate of a srcset is rewritten on its own. */
  lemma RewriteSrcsetCandidates(cfg: ProxyConfig, base: BaseUrl, candidates: seq<string>)
    requires |candidates| >= 1
    requires forall k :: 0 <= k < |candidates| ==> ',' !in candidates[k]
    ensures RewriteSrcset(cfg, base, Join(candidates, ","))
         == Join(seq(|candidates|, k requires 0 <= k < |candidates| => SrcsetCandidate(cfg, base, candidates[k])), ", ")
  {
    SplitJoin(candidates, ',');
    assert [','] == ",";
  }

  /** `url1 d1, url2 d2`, the usual two-candidate srcset, becomes the two processed
      URLs with their descriptors, joined by `, `. */
  lemma RewriteSrcsetTwo(cfg: ProxyConfig, base: BaseUrl, url1: string, d1: string, url2: string, d2: string)
    requires url1 != [] && NoSpace(url1) && ',' !in url1 && d1 != [] && NoSpace(d1) && ',' !in d1
    requires url2 != [] && NoSpace(url2) && ',' !in url2 && d2 != [] && NoSpace(d2) && ',' !in d2
    requires cfg.prefix != [] && !IsSpace(cfg.prefix[0])
    ensures RewriteSrcset(cfg, base, url1 + " " + d1 + ", " + url2 + " " + d2)
         == ProcessUrl(cfg, base, url1) + " " + d1 + ", " + ProcessUrl(cfg, base, url2) + " " + d2
  {
    // The whitespace preconditions are settled before the candidate facts, which are
    // costly to reason beside, enter the context.
    assert AllSpace("") && AllSpace(" ");
    TwoCandidatesText(url1, d1, url2, d2);
    CommaFreeCandidates(url1, d1, url2, d2);
    SrcsetOfTwo(cfg, base, "" + url1 + " " + d1, " " + url2 + " " + d2);
    CandidateSpaced(cfg, base, "", url1, d1);
    CandidateSpaced(cfg, base, " ", url2, d2);
    TwoCandidatesJoined(ProcessUrl(cfg, base, url1), d1, ProcessUrl(cfg, base, url2), d2);
  }

  /** Neither candidate of `url1 d1, url2 d2` holds a comma. */
  lemma CommaFreeCandidates(url1: string, d1: string, url2: string, d2: string)
    requires ',' !in url1 && ',' !in d1 && ',' !in url2 && ',' !in d2
    ensures ',' !in "" + url1 + " " + d1 && ',' !in " " + url2 + " " + d2
  {
  }

  /** Two rewritten candidates joined by a comma and a space, regrouped. */
  lemma TwoCandidatesJoined(p1: string, d1: string, p2: string, d2: string)
    ensures (p1 + " " + d1) + ", " + (p2 + " " + d2) == p1 + " " + d1 + ", " + p2 + " " + d2
  {
  }

  /** The text of two candidates, cut at the comma. */
  lemma TwoCandidatesText(url1: string, d1: string, url2: string, d2: string)
    ensures url1 + " " + d1 + ", " + url2 + " " + d2 == ("" + url1 + " " + d1) + "," + (" " + url2 + " " + d2)
  {
  }

  /** A candidate of a URL, one space and a descriptor, after any whitespace. */
  lemma CandidateSpaced(cfg: ProxyConfig, base: BaseUrl, ws1: string, url: string, descriptor: string)
    requires AllSpace(ws1)
    requires url != [] && NoSpace(url) && descriptor != [] && NoSpace(descriptor)
    requires cfg.prefix != [] && !IsSpace(cfg.prefix[0])
    ensures SrcsetCandidate(cfg, base, ws1 + url + " " + descriptor) == ProcessUrl(cfg, base, url) + " " + descriptor
  {
    assert ws1 + url + " " + descriptor == ws1 + (url + " " + descriptor) + "";
    CandidateDescribed(cfg, base, ws1, url, " ", descriptor, "");
  }

  /** Two comma-free candidates are rewritten one by one and joined by a comma and a
      space. */
  lemma SrcsetOfTwo(cfg: ProxyConfig, base: BaseUrl, c1: string, c2: string)
    requires ',' !in c1 && ',' !in c2
    ensures RewriteSrcset(cfg, base, c1 + "," + c2)
         == SrcsetCandidate(cfg, base, c1) + ", " + SrcsetCandidate(cfg, base, c2)
  {
    SrcsetOfPair(cfg, base, c1, c2);
    JoinedPair(cfg, base, c1, c2);
  }

  /** The two candidates of `c1,c2` are the two parts the rewrite joins. */
  lemma SrcsetOfPair(cfg: ProxyConfig, base: BaseUrl, c1: string, c2: string)
    requires ',' !in c1 && ',' !in c2
    ensures RewriteSrcset(cfg, base, c1 + "," + c2)
         == Join(seq(2, k requires 0 <= k < 2 => SrcsetCandidate(cfg, base, [c1, c2][k])), ", ")
  {
    JoinTwo(c1, c2, ",");
    RewriteSrcsetCandidates(cfg, base, [c1, c2]);
  }

  /** Joining the two rewritten candidates puts a comma and a space between them. */
  lemma JoinedPair(cfg: ProxyConfig, base: BaseUrl, c1: string, c2: string)
    ensures Join(seq(2, k requires 0 <= k < 2 => SrcsetCandidate(cfg, base, [c1, c2][k])), ", ")
         == SrcsetCandidate(cfg, base, c1) + ", " + SrcsetCandidate(cfg, base, c2)
  {
    var rs := seq(2, k requires 0 <= k < 2 => SrcsetCandidate(cfg, base, [c1, c2][k]));
    assert rs[0] == SrcsetCandidate(cfg, base, c1) && rs[1] == SrcsetCandidate(cfg, base, c2);
    JoinOfTwo(rs, ", ");
  }



  // ---------------------------------------------------------------- attributes

  /** Line 172: `attr="url"` becomes `attr="processed"`. */
  function PlainReplacement(cfg: ProxyConfig, base: BaseUrl, attr: string, m: Match): string {
    ReplaceValue(m.text, attr, m.capture, ProcessUrl(cfg, base, m.capture))
  }

  /** The plain path keeps the tag when `processUrl` keeps the URL. */
  lemma PlainKept(cfg: ProxyConfig, base: BaseUrl, attr: string, m: Match)
    ensures (m.capture == "" || SkippedByHtml(m.capture)) && '$' !in attr && '$' !in m.capture ==>
      PlainReplacement(cfg, base, attr, m) == m.text
  {
    if (m.capture == "" || SkippedByHtml(m.capture)) && '$' !in attr && '$' !in m.capture {
      ReplaceFirstSelf(m.text, attr + "=\"" + m.capture + "\"");
    }
  }

  /** `text.replace(`${attr}="${value}"`, `${attr}="${processed}"`)`. */
  function ReplaceValue(text: string, attr: string, value: string, processed: string): string {
    ReplaceFirst(text, attr + "=\"" + value + "\"", attr + "=\"" + processed + "\"")
  }

  lemma ReplaceValueAt(text: string, attr: string, value: string, processed: string, k: nat)
    requires StartsAt(text, k, attr + "=\"" + value + "\"")
    requires forall j :: 0 <= j < k ==> !StartsAt(text, j, attr + "=\"" + value + "\"")
    requires '$' !in attr && '$' !in processed
    ensures ReplaceValue(text, attr, value, processed) == text[..k] + attr + "=\"" + processed + "\"" + text[k + |attr| + |value| + 3..]
  {
    var rep := attr + "=\"" + processed + "\"";
    assert '$' !in rep;
    ReplaceFirstAt(text, attr + "=\"" + value + "\"", rep, k);
  }

  /** The callback of one attribute pass (lines 148-173), for the match of a tag with
      attribute `attr`: `m.attribs` is the attribute text, `m.capture` the URL. As in
      the code, the meta-refresh branch is taken for any tag whose attributes contain
      the single-quoted `http-equiv='refresh'`, and the final replacement only finds
      a double-quoted value. */
  function AttrReplacement(cfg: ProxyConfig, base: BaseUrl, tag: string, attr: string, m: Match): (r: string)
    ensures (attr != "srcset" && !(tag == "meta" && HasDqRefresh(m.attribs)) && !HasSqRefresh(m.attribs)
             && (m.capture == "" || SkippedByHtml(m.capture)) && '$' !in attr && '$' !in m.capture)
            ==> r == m.text
  {
    PlainKept(cfg, base, attr, m);
    var url := m.capture;
    var plain := PlainReplacement(cfg, base, attr, m);
    if tag == "meta" && !HasDqRefresh(m.attribs) && !HasSqRefresh(m.attribs) then m.text
    else if attr == "srcset" then ReplaceFirst(m.text, url, RewriteSrcset(cfg, base, url))
    else if (tag == "meta" && HasDqRefresh(m.attribs)) || HasSqRefresh(m.attribs) then
      match RefreshTarget(url)
      case Some(target) => ReplaceFirst(m.text, url, RefreshRewrite(cfg, base, url, target))
      case None => plain
    else plain
  }

  lemma AbsentChar(s: string, p: string, c: char)
    requires c !in s && c in p
    ensures !Contains(s, p)
  {
    var i :| 0 <= i < |p| && p[i] == c;
    forall k: nat | k + |p| <= |s|
      ensures !StartsAt(s, k, p)
    {
      assert s[k + i] != c;
    }
  }

  /** Matches left as they are: meta tags that are not refresh tags, and (other than
      srcset and refresh) values that are not double-quoted. */
  lemma AttrReplacementUntouched(cfg: ProxyConfig, base: BaseUrl, tag: string, attr: string, m: Match)
    ensures tag == "meta" && !HasDqRefresh(m.attribs) && !HasSqRefresh(m.attribs) ==>
      AttrReplacement(cfg, base, tag, attr, m) == m.text
    ensures tag != "meta" && attr != "srcset" && !HasSqRefresh(m.attribs) && '"' !in m.text ==>
      AttrReplacement(cfg, base, tag, attr, m) == m.text
  {
    if tag != "meta" && attr != "srcset" && !HasSqRefresh(m.attribs) && '"' !in m.text {
      var pat := attr + "=\"" + m.capture + "\"";
      assert pat[|attr| + 1] == '"';
      AbsentChar(m.text, pat, '"');
    }
  }

  /** A non-meta tag whose attributes contain `http-equiv='refresh'` and whose value
      looks like a refresh value takes the meta-refresh branch. */
  lemma RefreshBranchForAnyTag(cfg: ProxyConfig, base: BaseUrl, tag: string, attr: string, m: Match, target: string)
    requires attr != "srcset" && HasSqRefresh(m.attribs)
    requires RefreshTarget(m.capture) == Some(target)
    ensures AttrReplacement(cfg, base, tag, attr, m) == ReplaceFirst(m.text, m.capture, RefreshRewrite(cfg, base, m.capture, target))
  {
  }

  /** Outside meta tags, srcset and the refresh marker, the plain replacement applies. */
  lemma AttrReplacementIsPlain(cfg: ProxyConfig, base: BaseUrl, tag: string, attr: string, m: Match)
    requires tag != "meta" && attr != "srcset" && !HasSqRefresh(m.attribs)
    ensures AttrReplacement(cfg, base, tag, attr, m) == PlainReplacement(cfg, base, attr, m)
  {
  }

  /** A double-quoted value is replaced in place by its processed form. */
  lemma PlainReplacementAt(cfg: ProxyConfig, base: BaseUrl, attr: string, m: Match, k: nat)
    requires StartsAt(m.text, k, attr + "=\"" + m.capture + "\"")
    requires forall j :: 0 <= j < k ==> !StartsAt(m.text, j, attr + "=\"" + m.capture + "\"")
    requires '$' !in cfg.prefix && '$' !in m.capture && '$' !in attr
    ensures PlainReplacement(cfg, base, attr, m)
         == m.text[..k] + attr + "=\"" + ProcessUrl(cfg, base, m.capture) + "\"" + m.text[k + |attr| + |m.capture| + 3..]
  {
    ProcessUrlDollarFree(cfg, base, m.capture);
    ReplaceValueAt(m.text, attr, m.capture, ProcessUrl(cfg, base, m.capture), k);
  }

  /** The value of `href="..."` at `a0`, followed by `>`, is what the attribute
      search finds there. */
  lemma HrefValueAt(s: string, a0: nat, href: string)
    requires href != [] && forall k :: 0 <= k < |href| ==> !IsQuote(href[k])
    requires StartsAt(s, a0, "href=\"" + href + "\">")
    ensures AttrValueAt("href", s, a0) == Some((a0 + 6, a0 + 6 + |href|, a0 + 7 + |href|))
  {
    var t := "href=\"" + href + "\">";
    var v := a0 + 5;
    var u1 := v + 1 + |href|;
    StartsAtSlice(s, a0, t, 0, 5);
    StartsAtSlice(s, a0, t, 6, 6 + |href|);
    assert t[..5] == "href=" && t[6..6 + |href|] == href;
    assert StartsAtCi(s, a0, "href" + "=");
    StartsAtSlice(s, a0, t, 0, |t|);
    assert s[v] == '"' && s[u1] == '"' && s[u1 + 1] == '>';
    QuotedRunOf(s, v, href);
  }

  /** The base tag inserted by `WithBaseTag` is matched by the `base`/`href` pass. */
  lemma BaseTagMatched(s: string, i: nat, href: string)
    requires href != [] && forall k :: 0 <= k < |href| ==> !IsQuote(href[k])
    requires StartsAt(s, i, "<base href=\"" + href + "\">")
    ensures FindAt(TagAttr("base", "href"), s, i)
         == Some(Match(i + |href| + 14, "<base href=\"" + href + "\">", href, "href=\"" + href + "\""))
  {
    BaseTagAttrAt(s, i, href);
  }

  lemma BaseTagAttrAt(s: string, i: nat, href: string)
    requires href != [] && forall k :: 0 <= k < |href| ==> !IsQuote(href[k])
    requires StartsAt(s, i, "<base href=\"" + href + "\">")
    ensures TagAttrAt("base", "href", s, i)
         == Some(Match(i + |href| + 14, "<base href=\"" + href + "\">", href, "href=\"" + href + "\""))
  {
    BaseTagOpens(s, i, href);
    TagOpenAt("base", "href", s, i);
    BaseTagAttrFrom(s, i, href);
  }

  lemma BaseTagAttrFrom(s: string, i: nat, href: string)
    requires href != [] && forall k :: 0 <= k < |href| ==> !IsQuote(href[k])
    requires StartsAt(s, i, "<base href=\"" + href + "\">")
    requires StartsAt(s, i + 6, "href=\"" + href + "\">") && s[i + 6] == 'h'
    ensures AttrFrom("href", s, i, i + 6, i + 6)
         == Some(Match(i + |href| + 14, "<base href=\"" + href + "\">", href, "href=\"" + href + "\""))
  {
    var a0 := i + 6;
    var u0, u1, gt := a0 + 6, a0 + 6 + |href|, a0 + |href| + 7;
    HrefValueAt(s, a0, href);
    AttrFromFirst("href", s, i, a0, u0, u1, gt);
    BaseTagPieces(s, i, href);
    assert gt + 1 == i + |href| + 14 && u0 == i + 12 && u1 == i + 12 + |href| && gt == i + 13 + |href|;
  }

  lemma BaseTagOpens(s: string, i: nat, href: string)
    requires StartsAt(s, i, "<base href=\"" + href + "\">")
    ensures s[i..i + 5] == "<" + "base" && s[i + 5] == ' ' && s[i + 6] == 'h'
    ensures StartsAt(s, i + 6, "href=\"" + href + "\">")
  {
    var t := "<base href=\"" + href + "\">";
    StartsAtSlice(s, i, t, 0, 5);
    StartsAtSlice(s, i, t, 6, |t|);
    StartsAtChar(s, i, t, 5);
    StartsAtChar(s, i, t, 6);
    assert t[..5] == "<base" && t[6..] == "href=\"" + href + "\">";
  }

  lemma BaseTagPieces(s: string, i: nat, href: string)
    requires StartsAt(s, i, "<base href=\"" + href + "\">")
    ensures s[i..i + |href| + 14] == "<base href=\"" + href + "\">"
    ensures s[i + 12..i + 12 + |href|] == href
    ensures s[i + 6..i + 13 + |href|] == "href=\"" + href + "\""
  {
    var t := "<base href=\"" + href + "\">";
    StartsAtSlice(s, i, t, 0, |t|);
    StartsAtSlice(s, i, t, 6, |t| - 1);
    StartsAtSlice(s, i, t, 12, 12 + |href|);
    assert t[6..|t| - 1] == "href=\"" + href + "\"" && t[12..12 + |href|] == href;
  }

  /** In the inserted base tag, `href="..."` first occurs right after `<base `. */
  lemma BaseTagValueAt(href: string)
    ensures var pat := "href=\"" + href + "\"";
      StartsAt("<base " + pat + ">", 6, pat)
      && forall j :: 0 <= j < 6 ==> !StartsAt("<base " + pat + ">", j, pat)
  {
    var pat := "href=\"" + href + "\"";
    var text := "<base " + pat + ">";
    assert text[6..6 + |pat|] == pat;
    forall j | 0 <= j < 6
      ensures !StartsAt(text, j, pat)
    {
      assert text[j] != pat[0];
    }
  }

  /** The `href` value of the inserted base tag is the one the plain replacement
      finds. */
  lemma BaseTagValueReplaced(href: string, processed: string)
    requires '$' !in processed
    ensures ReplaceValue("<base href=\"" + href + "\">", "href", href, processed) == "<base href=\"" + processed + "\">"
  {
    var pat := "href=\"" + href + "\"";
    var text := "<base " + pat + ">";
    assert text == "<base href=\"" + href + "\">";
    BaseTagValueAt(href);
    ReplaceValueAt(text, "href", href, processed, 6);
    assert text[..6] == "<base ";
    assert text[6 + |pat|..] == ">";
    BaseTagSplice(processed);
  }

  lemma BaseTagSplice(processed: string)
    ensures "<base " + "href" + "=\"" + processed + "\"" + ">" == "<base href=\"" + processed + "\">"
  {
  }

  /** ... and that pass replaces its `href` by the processed base URL. */
  lemma BaseTagRewritten(cfg: ProxyConfig, base: BaseUrl, href: string)
    requires href != [] && forall k :: 0 <= k < |href| ==> !IsQuote(href[k]) && href[k] != '>'
    requires '$' !in cfg.prefix && '$' !in href
    ensures var text := "<base href=\"" + href + "\">";
      AttrReplacement(cfg, base, "base", "href", Match(|text|, text, href, "href=\"" + href + "\""))
      == "<base href=\"" + ProcessUrl(cfg, base, href) + "\">"
  {
    var pat := "href=\"" + href + "\"";
    var text := "<base href=\"" + href + "\">";
    var m := Match(|text|, text, href, pat);
    assert '\'' !in href;
    assert '\'' !in pat;
    AbsentChar(pat, "http-equiv='refresh'", '\'');
    AttrReplacementIsPlain(cfg, base, "base", "href", m);
    ProcessUrlDollarFree(cfg, base, href);
    BaseTagValueReplaced(href, ProcessUrl(cfg, base, href));
  }

  /** One pass of the attribute table. */
  function AttributePass(cfg: ProxyConfig, base: BaseUrl, entry: (string, string), html: string): string {
    ReplaceAll(TagAttr(entry.0, entry.1), html, m => AttrReplacement(cfg, base, entry.0, entry.1, m))
  }

  /** The passes of `entries`, in order. */
  function AttributePasses(cfg: ProxyConfig, base: BaseUrl, entries: seq<(string, string)>, html: string): string {
    if entries == [] then html
    else AttributePass(cfg, base, entries[|entries| - 1], AttributePasses(cfg, base, entries[..|entries| - 1], html))
  }

  // ---------------------------------------------------------------- styles

  /** Lines 179-186: the `url(...)` references of a `style="..."` value are rewritten
      to single-quoted proxy URLs, whatever their quotes were. */
  function InlineStyleReplacement(cfg: ProxyConfig, base: BaseUrl, m: Match): (r: string)
    ensures '(' !in m.capture && '$' !in m.capture ==> r == m.text
  {
    var f := (u: Match) => "url('" + ProcessUrl(cfg, base, u.capture) + "')";
    StyleKept(m.text, m.capture, f);
    ReplaceFirst(m.text, m.capture, ReplaceAll(CssUrl, m.capture, f))
  }

  /** Lines 193-196: the content of a `<style>` element goes through `rewriteCss`. */
  function StyleBlockReplacement(cfg: ProxyConfig, base: BaseUrl, m: Match): (r: string)
    ensures (!cfg.rewriteUrls || '(' !in m.capture) && '$' !in m.capture ==> r == m.text
  {
    StyleBlockKept(cfg, base, m);
    ReplaceFirst(m.text, m.capture, RewriteCss(cfg, base, m.capture))
  }

  /** A style value without `(` holds no `url(...)`, so its replacement keeps the
      attribute as it was. */
  lemma StyleKept(text: string, t: string, f: Match -> string)
    ensures '(' !in t && '$' !in t ==> ReplaceFirst(text, t, ReplaceAll(CssUrl, t, f)) == text
  {
    if '(' !in t && '$' !in t {
      CssUrlAbsent(t, f);
      ReplaceFirstSelf(text, t);
    }
  }

  /** A `<style>` element whose content `rewriteCss` keeps is kept. */
  lemma StyleBlockKept(cfg: ProxyConfig, base: BaseUrl, m: Match)
    ensures (!cfg.rewriteUrls || '(' !in m.capture) && '$' !in m.capture ==>
      ReplaceFirst(m.text, m.capture, RewriteCss(cfg, base, m.capture)) == m.text
  {
    if (!cfg.rewriteUrls || '(' !in m.capture) && '$' !in m.capture {
      if cfg.rewriteUrls {
        RewriteCssNoParen(cfg, base, m.capture);
      }
      ReplaceFirstSelf(m.text, m.capture);
    }
  }

  /** Declarations around the `url(...)` of a style value: no quote (the value would
      end there), no `(` and no `$` (which `replace` would expand). */
  predicate PlainDeclarations(t: string) {
    forall k :: 0 <= k < |t| ==> !IsQuote(t[k]) && t[k] != '(' && t[k] != '$'
  }

  lemma PlainDollarFree(t: string)
    requires PlainDeclarations(t)
    ensures '$' !in t
  {
    assert forall k :: 0 <= k < |t| ==> t[k] != '$';
  }

  lemma DollarFreeThree(a: string, b: string, c: string)
    requires '$' !in a && '$' !in b && '$' !in c
    ensures '$' !in a + b + c
  {
  }

  /** `url(`, the optional quotes around the URL, and the closing `)`. */
  lemma DeclarationChars(q: string, u: string)
    requires q == "" || q == "\"" || q == "'"
    requires CssUrlBody(u)
    ensures var d := "url(" + q + u + q + ")";
      && |d| == 5 + 2 * |q| + |u|
      && d[0] == 'u' && d[1] == 'r' && d[2] == 'l' && d[3] == '('
      && (forall j :: 4 <= j < |d| - 1 ==> d[j] != ')')
      && d[|d| - 1] == ')'
  {
    var d := "url(" + q + u + q + ")";
    DeclarationPieces(q, u);
    assert forall j :: 4 <= j < 4 + |q| ==> d[j] == q[j - 4];
    assert forall j :: 4 + |q| + |u| <= j < |d| - 1 ==> d[j] == q[j - 4 - |q| - |u|];
  }

  lemma Regroup(h: string, a: string, b: string, c: string, d: string)
    ensures h + a + b + c + d == h + a + (b + c + d)
    ensures h + a + b + c + d == (h + a) + b + (c + d)
    ensures h + a + b + c + d == h + (a + b + c) + d
    ensures h + a + b + c + d == [] + h + (a + b + c + d)
  {
  }

  /** The ends of `style=Q pre decl post Q`: the opening, the closing quote and the
      value between them. */
  lemma StyleAttrEnds(quote: char, pre: string, decl: string, post: string)
    ensures var s := "style=" + [quote] + pre + decl + post + [quote];
      && |s| == 8 + |pre| + |decl| + |post|
      && s[..7] == "style=" + [quote]
      && s[|s| - 1] == quote
      && s[7..|s| - 1] == pre + decl + post
  {
    var h := "style=" + [quote];
    var s := h + pre + decl + post + [quote];
    Regroup(h, pre, decl, post, [quote]);
    PieceChars(s, h, pre + decl + post, [quote]);
    PieceChars(s, [], h, pre + decl + post + [quote]);
  }

  /** The characters of `pre` in `style=Q pre decl post Q`. */
  lemma StyleAttrPre(quote: char, pre: string, decl: string, post: string)
    ensures var s := "style=" + [quote] + pre + decl + post + [quote];
      forall j :: 7 <= j < 7 + |pre| ==> s[j] == pre[j - 7]
  {
    var h := "style=" + [quote];
    var s := h + pre + decl + post + [quote];
    Regroup(h, pre, decl, post, [quote]);
    PieceChars(s, h, pre, decl + post + [quote]);
  }

  /** The characters of `decl` in `style=Q pre decl post Q`. */
  lemma StyleAttrDecl(quote: char, pre: string, decl: string, post: string)
    ensures var s := "style=" + [quote] + pre + decl + post + [quote];
      forall j :: 7 + |pre| <= j < 7 + |pre| + |decl| ==> s[j] == decl[j - 7 - |pre|]
  {
    var h := "style=" + [quote];
    var s := h + pre + decl + post + [quote];
    Regroup(h, pre, decl, post, [quote]);
    PieceChars(s, h + pre, decl, post + [quote]);
  }

  /** The characters of `post` in `style=Q pre decl post Q`. */
  lemma StyleAttrPost(quote: char, pre: string, decl: string, post: string)
    ensures var s := "style=" + [quote] + pre + decl + post + [quote];
      forall j :: 7 + |pre| + |decl| <= j < 7 + |pre| + |decl| + |post| ==> s[j] == post[j - 7 - |pre| - |decl|]
  {
    var h := "style=" + [quote];
    var s := h + pre + decl + post + [quote];
    PieceChars(s, h + pre + decl, post, [quote]);
  }

  /** What the matcher of an inline style needs to know about
      `style=Q pre url(q u q) post Q`: where quotes, parentheses and the `url(` are. */
  lemma StyleAttrShape(quote: char, pre: string, q: string, u: string, post: string)
    requires IsQuote(quote) && PlainDeclarations(pre) && PlainDeclarations(post)
    requires q == "" || q == "\"" || q == "'"
    requires CssUrlBody(u)
    ensures var decl := "url(" + q + u + q + ")";
      var s := "style=" + [quote] + pre + decl + post + [quote];
      var a := 7 + |pre|;
      var r := a + |decl| - 1;
      && |s| == r + 2 + |post|
      && StartsAtCi(s, 0, "style=") && IsQuote(s[6])
      && StartsAtCi(s, a, "url(") && r > a + 4
      && (forall j :: 7 <= j <= a ==> !IsQuote(s[j]))
      && (forall j :: 0 <= j < |s| && s[j] == '(' ==> a + 3 <= j < r)
      && (forall j :: a + 4 <= j < r ==> s[j] != ')')
      && s[r] == ')'
      && (forall j :: r < j < |s| - 1 ==> !IsQuote(s[j]))
      && IsQuote(s[|s| - 1])
      && s[7..|s| - 1] == pre + decl + post
  {
    StyleAttrOuter(quote, pre, q, u, post);
    StyleAttrInner(quote, pre, q, u, post);
  }

  /** The opening `style=Q`, the `url(` and `)` of the declaration and the closing
      quote of `style=Q pre url(q u q) post Q`. */
  lemma StyleAttrOuter(quote: char, pre: string, q: string, u: string, post: string)
    requires IsQuote(quote)
    requires q == "" || q == "\"" || q == "'"
    requires CssUrlBody(u)
    ensures var decl := "url(" + q + u + q + ")";
      var s := "style=" + [quote] + pre + decl + post + [quote];
      var a := 7 + |pre|;
      var r := a + |decl| - 1;
      && |s| == r + 2 + |post|
      && StartsAtCi(s, 0, "style=") && IsQuote(s[6])
      && StartsAtCi(s, a, "url(") && r > a + 4
      && s[r] == ')'
      && IsQuote(s[|s| - 1])
      && s[7..|s| - 1] == pre + decl + post
  {
    var decl := "url(" + q + u + q + ")";
    DeclarationChars(q, u);
    StyleAttrEnds(quote, pre, decl, post);
    StyleAttrDecl(quote, pre, decl, post);
    var s := "style=" + [quote] + pre + decl + post + [quote];
    assert s[..7] == "style=" + [quote];
    assert forall j :: 0 <= j < 7 ==> s[j] == ("style=" + [quote])[j];
  }

  /** Where quotes and parentheses may sit between the quotes of
      `style=Q pre url(q u q) post Q`. */
  lemma StyleAttrInner(quote: char, pre: string, q: string, u: string, post: string)
    requires IsQuote(quote) && PlainDeclarations(pre) && PlainDeclarations(post)
    requires q == "" || q == "\"" || q == "'"
    requires CssUrlBody(u)
    ensures var decl := "url(" + q + u + q + ")";
      var s := "style=" + [quote] + pre + decl + post + [quote];
      var a := 7 + |pre|;
      var r := a + |decl| - 1;
      && (forall j :: 7 <= j <= a ==> !IsQuote(s[j]))
      && (forall j :: 0 <= j < |s| && s[j] == '(' ==> a + 3 <= j < r)
      && (forall j :: a + 4 <= j < r ==> s[j] != ')')
      && (forall j :: r < j < |s| - 1 ==> !IsQuote(s[j]))
  {
    var decl := "url(" + q + u + q + ")";
    DeclarationChars(q, u);
    StyleAttrEnds(quote, pre, decl, post);
    StyleAttrPre(quote, pre, decl, post);
    StyleAttrDecl(quote, pre, decl, post);
    StyleAttrPost(quote, pre, decl, post);
    var s := "style=" + [quote] + pre + decl + post + [quote];
    assert forall j :: 0 <= j < 7 ==> s[j] == ("style=" + [quote])[j];
  }

  /** Every `url(` a style value holds past its opening quote starts a tail that ends
      at the closing quote, and the one of the declaration does. */
  lemma StyleTailOf(s: string, k: nat, a: nat, r: nat)
    requires 7 <= k < |s| && r + 1 < |s|
    requires forall j :: 0 <= j < |s| && s[j] == '(' ==> a + 3 <= j < r
    requires forall j :: a + 4 <= j < r ==> s[j] != ')'
    requires s[r] == ')'
    requires forall j :: r < j < |s| - 1 ==> !IsQuote(s[j])
    requires IsQuote(s[|s| - 1])
    ensures StyleTailAt(s, k).Some? ==> StyleTailAt(s, k) == Some(|s| - 1)
    ensures k == a && r > a + 4 && StartsAtCi(s, a, "url(") ==> StyleTailAt(s, k) == Some(|s| - 1)
  {
    if StartsAtCi(s, k, "url(") {
      LowerNonLetter(s[k + 3], '(');
      assert Lower(s[k + 3]) == Lower("url("[3]);
      assert SkipUntil(s, k + 4, {')'}) == r;
      if r > k + 4 {
        assert SkipUntil(s, r + 1, Quotes) == |s| - 1;
      }
    }
  }

  /** `style=Q pre url(q u q) post Q` is one inline-style match whose capture is the
      whole value between the quotes. */
  lemma InlineStyleMatch(quote: char, pre: string, q: string, u: string, post: string)
    requires IsQuote(quote) && PlainDeclarations(pre) && PlainDeclarations(post)
    requires q == "" || q == "\"" || q == "'"
    requires CssUrlBody(u)
    ensures var decl := "url(" + q + u + q + ")";
      var s := "style=" + [quote] + pre + decl + post + [quote];
      FindAt(InlineStyle, s, 0) == Some(Match(|s|, s, pre + decl + post, ""))
  {
    var decl := "url(" + q + u + q + ")";
    var s := "style=" + [quote] + pre + decl + post + [quote];
    StyleAttrShape(quote, pre, q, u, post);
    InlineStyleAtOf(s, 7 + |pre|, 7 + |pre| + |decl| - 1);
  }

  /** The inline-style matcher on a value laid out as `StyleAttrShape` describes. */
  lemma InlineStyleAtOf(s: string, a: nat, r: nat)
    requires 7 <= a && a + 4 < r && r + 1 < |s|
    requires StartsAtCi(s, 0, "style=") && IsQuote(s[6])
    requires StartsAtCi(s, a, "url(")
    requires forall j :: 7 <= j <= a ==> !IsQuote(s[j])
    requires forall j :: 0 <= j < |s| && s[j] == '(' ==> a + 3 <= j < r
    requires forall j :: a + 4 <= j < r ==> s[j] != ')'
    requires s[r] == ')'
    requires forall j :: r < j < |s| - 1 ==> !IsQuote(s[j])
    requires IsQuote(s[|s| - 1])
    ensures InlineStyleAt(s, 0) == Some(Match(|s|, s, s[7..|s| - 1], ""))
  {
    forall k | 7 <= k < |s|
      ensures StyleTailAt(s, k).Some? ==> StyleTailAt(s, k) == Some(|s| - 1)
    {
      StyleTailOf(s, k, a, r);
    }
    StyleTailOf(s, a, a, r);
    var kk := SkipUntil(s, 7, Quotes);
    StyleFromFinds(s, 0, 7, kk, a, |s| - 1);
    assert s[0..|s|] == s;
  }

  /** `url(` cannot start where no `(` follows three characters later. */
  lemma CssUrlNeedsParen(c: string, j: nat)
    requires j <= |c| && (j + 3 < |c| ==> c[j + 3] != '(')
    ensures FindAt(CssUrl, c, j).None?
  {
    if j + 4 <= |c| {
      LowerNonLetter(c[j + 3], '(');
      assert Lower(c[j + 3]) != Lower("url("[3]);
    }
  }

  /** In a style value `pre url(q u q) post`, the only `(` are those of the
      declaration. */
  lemma StyleValueParens(pre: string, q: string, u: string, post: string)
    requires PlainDeclarations(pre) && PlainDeclarations(post)
    requires q == "" || q == "\"" || q == "'"
    requires CssUrlBody(u)
    ensures var decl := "url(" + q + u + q + ")";
      var c := pre + decl + post;
      forall j :: 0 <= j < |c| && c[j] == '(' ==> |pre| + 3 <= j < |pre| + |decl|
  {
    var decl := "url(" + q + u + q + ")";
    var c := pre + decl + post;
    var a, e := |pre|, |pre| + |decl|;
    DeclarationChars(q, u);
    assert c == [] + pre + (decl + post);
    PieceChars(c, [], pre, decl + post);
    PieceChars(c, pre, decl, post);
    assert c == pre + decl + post + [];
    PieceChars(c, pre + decl, post, []);
    assert forall j :: 0 <= j < a ==> c[j] != '(';
    assert forall j :: a <= j < a + 3 ==> c[j] != '(';
    assert forall j :: e - 1 <= j < |c| ==> c[j] != '(';
  }

  /** The declaration of a style value `pre url(q u q) post` is a `url(...)` match
      capturing `u`. */
  lemma CssUrlInValue(pre: string, q: string, u: string, post: string)
    requires q == "" || q == "\"" || q == "'"
    requires CssUrlBody(u)
    ensures var decl := "url(" + q + u + q + ")";
      var c := pre + decl + post;
      FindAt(CssUrl, c, |pre|) == Some(Match(|pre| + |decl|, decl, u, ""))
  {
    var decl := "url(" + q + u + q + ")";
    var c := pre + decl + post;
    DeclarationRun(pre, q, u, post);
    CssUrlAtRun(c, |pre|, |pre| + 4 + |q|, |pre| + 4 + |q| + |u|, |pre| + |decl|, decl, u);
  }

  /** The facts `CssUrlAtRun` needs about the declaration of a style value. */
  lemma DeclarationRun(pre: string, q: string, u: string, post: string)
    requires q == "" || q == "\"" || q == "'"
    requires CssUrlBody(u)
    ensures var decl := "url(" + q + u + q + ")";
      var c := pre + decl + post;
      var i, j1 := |pre|, |pre| + 4 + |q|;
      var k := j1 + |u|;
      var k1 := if IsQuote(c[k]) then k + 1 else k;
      && i + 4 < |c| && StartsAtCi(c, i, "url(")
      && j1 == (if IsQuote(c[i + 4]) then i + 5 else i + 4)
      && j1 < k < |c| && SkipUntil(c, j1, {'"', '\'', ')'}) == k
      && k1 < |c| && c[k1] == ')' && k1 + 1 == i + |decl|
      && c[i..k1 + 1] == decl && c[j1..k] == u
  {
    var decl := "url(" + q + u + q + ")";
    var c := pre + decl + post;
    var j1 := |pre| + 4 + |q|;
    DeclarationInValue(pre, q, u, post);
    SkipUntilRun(c, j1, |u|, {'"', '\'', ')'});
  }

  /** Where the characters of the declaration sit in a style value. */
  lemma DeclarationInValue(pre: string, q: string, u: string, post: string)
    requires q == "" || q == "\"" || q == "'"
    requires CssUrlBody(u)
    ensures var decl := "url(" + q + u + q + ")";
      var c := pre + decl + post;
      var i, j1 := |pre|, |pre| + 4 + |q|;
      var k := j1 + |u|;
      && k + |q| < |c| && c[k + |q|] == ')' && k + |q| + 1 == i + |decl|
      && StartsAtCi(c, i, "url(")
      && (IsQuote(c[i + 4]) <==> q != "")
      && (forall t :: j1 <= t < k ==> c[t] !in {'"', '\'', ')'})
      && c[k] in {'"', '\'', ')'}
      && (IsQuote(c[k]) <==> q != "")
      && c[i..k + |q| + 1] == decl && c[j1..k] == u
  {
    var decl := "url(" + q + u + q + ")";
    var c := pre + decl + post;
    var i, j1 := |pre|, |pre| + 4 + |q|;
    var k := j1 + |u|;
    DeclarationPieces(q, u);
    PieceChars(c, pre, decl, post);
    assert k + |q| + 1 == i + |decl|;
    assert c[i + 4] == decl[4] && c[k] == decl[k - i] && c[k + |q|] == decl[|decl| - 1];
    assert StartsAtCi(c, i, "url(") by {
      assert forall t :: 0 <= t < 4 ==> c[i + t] == decl[t];
    }
    SliceOfSlice(c, i, i + |decl|, 4 + |q|, 4 + |q| + |u|);
  }

  /** `CssUrlAt` at `i`, given where its run and its closing `)` are. */
  lemma CssUrlAtRun(c: string, i: nat, j1: nat, k: nat, e: nat, text: string, capture: string)
    requires i + 4 < |c| && StartsAtCi(c, i, "url(")
    requires j1 == if IsQuote(c[i + 4]) then i + 5 else i + 4
    requires j1 < k < |c| && SkipUntil(c, j1, {'"', '\'', ')'}) == k
    requires (if IsQuote(c[k]) then k + 1 else k) < |c|
    requires c[if IsQuote(c[k]) then k + 1 else k] == ')'
    requires e == (if IsQuote(c[k]) then k + 1 else k) + 1
    requires text == c[i..e] && capture == c[j1..k]
    ensures FindAt(CssUrl, c, i) == Some(Match(e, text, capture, ""))
  {
  }

  /** Inside a style value, the one `url(...)` is rewritten to its single-quoted
      processed URL, and the declarations around it are kept. */
  lemma InlineStyleUrls(cfg: ProxyConfig, base: BaseUrl, pre: string, q: string, u: string, post: string)
    requires PlainDeclarations(pre) && PlainDeclarations(post)
    requires q == "" || q == "\"" || q == "'"
    requires CssUrlBody(u)
    ensures var c := pre + ("url(" + q + u + q + ")") + post;
      ReplaceAll(CssUrl, c, (m: Match) => "url('" + ProcessUrl(cfg, base, m.capture) + "')")
        == pre + ("url('" + ProcessUrl(cfg, base, u) + "')") + post
  {
    var decl := "url(" + q + u + q + ")";
    var c := pre + decl + post;
    var g := (m: Match) => "url('" + ProcessUrl(cfg, base, m.capture) + "')";
    var e := |pre| + |decl|;
    StyleValueParens(pre, q, u, post);
    forall j | 0 <= j < |pre| ensures FindAt(CssUrl, c, j).None? {
      CssUrlNeedsParen(c, j);
    }
    forall j | e <= j <= |c| ensures FindAt(CssUrl, c, j).None? {
      CssUrlNeedsParen(c, j);
    }
    CssUrlInValue(pre, q, u, post);
    ReplaceAllOne(CssUrl, c, |pre|, g, Match(e, decl, u, ""));
    assert c[..|pre|] == pre && c[e..] == post;
  }

  /** Inside `style=Q pre url(q u q) post Q`, the value first occurs right after the
      opening quote: an earlier occurrence would put the `(` of its `url(` inside
      `style=Q`, or inside `pre` and the `url` before it. */
  lemma InlineStyleValueFirst(quote: char, pre: string, q: string, u: string, post: string)
    requires IsQuote(quote) && PlainDeclarations(pre) && PlainDeclarations(post)
    requires q == "" || q == "\"" || q == "'"
    requires CssUrlBody(u)
    ensures var decl := "url(" + q + u + q + ")";
      var s := "style=" + [quote] + pre + decl + post + [quote];
      StartsAt(s, 7, pre + decl + post)
      && forall j :: 0 <= j < 7 ==> !StartsAt(s, j, pre + decl + post)
  {
    var decl := "url(" + q + u + q + ")";
    var c := pre + decl + post;
    var s := "style=" + [quote] + pre + decl + post + [quote];
    StyleAttrShape(quote, pre, q, u, post);
    DeclarationChars(q, u);
    PieceChars(c, pre, decl, post);
    forall j | 0 <= j < 7 && StartsAt(s, j, c)
      ensures false
    {
      StartsAtChar(s, j, c, |pre| + 3);
    }
  }

  lemma RegroupValue(h: string, pre: string, a: string, b: string, c: string, d: string, e: string, post: string, t: string)
    ensures h + pre + a + b + c + d + e + post + t == h + pre + (a + b + c + d + e) + post + t
  {
  }

  lemma RegroupResult(h: string, pre: string, a: string, p: string, b: string, post: string, t: string)
    ensures h + (pre + (a + p + b) + post) + t == h + pre + a + p + b + post + t
  {
  }

  /** The replacement of a whole inline style: the value's one `url(...)` becomes the
      single-quoted processed URL. */
  lemma InlineStyleReplaced(cfg: ProxyConfig, base: BaseUrl, quote: char, pre: string, q: string, u: string, post: string)
    requires IsQuote(quote) && PlainDeclarations(pre) && PlainDeclarations(post)
    requires q == "" || q == "\"" || q == "'"
    requires CssUrlBody(u) && '$' !in u && '$' !in cfg.prefix
    ensures var decl := "url(" + q + u + q + ")";
      var s := "style=" + [quote] + pre + decl + post + [quote];
      InlineStyleReplacement(cfg, base, Match(|s|, s, pre + decl + post, ""))
        == "style=" + [quote] + pre + "url('" + ProcessUrl(cfg, base, u) + "')" + post + [quote]
  {
    var decl := "url(" + q + u + q + ")";
    var c := pre + decl + post;
    var s := "style=" + [quote] + pre + decl + post + [quote];
    var p := ProcessUrl(cfg, base, u);
    var rep := pre + ("url('" + p + "')") + post;
    ProcessUrlDollarFree(cfg, base, u);
    PlainDollarFree(pre);
    PlainDollarFree(post);
    DollarFreeThree("url('", p, "')");
    DollarFreeThree(pre, "url('" + p + "')", post);
    InlineStyleUrls(cfg, base, pre, q, u, post);
    InlineStyleValueFirst(quote, pre, q, u, post);
    ReplaceFirstAt(s, c, rep, 7);
    StyleAttrEnds(quote, pre, decl, post);
    assert s[7 + |c|..] == [quote];
    RegroupResult("style=" + [quote], pre, "url('", p, "')", post, [quote]);
  }

  /** An inline style with one `url(...)` (quoted either way or unquoted) between
      plain declarations is rewritten to the single-quoted processed URL, and nothing
      else in it changes. */
  lemma InlineStyleRewritten(cfg: ProxyConfig, base: BaseUrl, quote: char, pre: string, q: string, u: string, post: string)
    requires IsQuote(quote) && PlainDeclarations(pre) && PlainDeclarations(post)
    requires q == "" || q == "\"" || q == "'"
    requires CssUrlBody(u) && '$' !in u && '$' !in cfg.prefix
    ensures ReplaceAll(InlineStyle, "style=" + [quote] + pre + "url(" + q + u + q + ")" + post + [quote],
                       m => InlineStyleReplacement(cfg, base, m))
         == "style=" + [quote] + pre + "url('" + ProcessUrl(cfg, base, u) + "')" + post + [quote]
  {
    var decl := "url(" + q + u + q + ")";
    var s := "style=" + [quote] + pre + decl + post + [quote];
    RegroupValue("style=" + [quote], pre, "url(", q, u, q, ")", post, [quote]);
    InlineStyleMatch(quote, pre, q, u, post);
    ReplaceAllWhole(InlineStyle, s, m => InlineStyleReplacement(cfg, base, m));
    InlineStyleReplaced(cfg, base, quote, pre, q, u, post);
  }

  /** The content of `<style>css</style>` holds no closing tag of its own, in any
      case: the element ends at the `</style>` put after it. */
  predicate ClosesOnlyAtEnd(css: string) {
    forall j :: 0 <= j < |css| ==> !StartsAtCi(css + "</style>", j, "</style>")
  }

  /** `<style>css</style>` is one style-block match, with `css` as its content. */
  lemma StyleBlockMatch(css: string)
    requires ClosesOnlyAtEnd(css)
    ensures var s := "<style>" + css + "</style>";
      FindAt(StyleBlock, s, 0) == Some(Match(|s|, s, css, ""))
  {
    var s := "<style>" + css + "</style>";
    var t := css + "</style>";
    assert s == "<style>" + t;
    assert s[..7] == "<style>";
    assert StartsAtCi(s, 0, "<style");
    assert SkipUntil(s, 6, {'>'}) == 6;
    forall j | 7 <= j < 7 + |css|
      ensures !StartsAtCi(s, j, "</style>")
    {
      StartsAtCiShift("<style>", t, j - 7, "</style>");
    }
    assert t[|css|..] == "</style>";
    StartsAtCiShift("<style>", t, |css|, "</style>");
    IndexOfCiAt(s, "</style>", 7, 7 + |css|);
    assert s[7..7 + |css|] == css;
    assert s[0..|s|] == s;
  }

  /** If the content also occurs inside the opening tag, every one of its characters
      is a character of `<style>` (the content repeats the tail of the tag), so it
      holds no `(`. */
  lemma {:induction false} StyleBlockEarlyChar(css: string, k: nat, i: nat)
    requires k < 7 && StartsAt("<style>" + css + "</style>", k, css) && i < |css|
    ensures css[i] != '('
    decreases i
  {
    var s := "<style>" + css + "</style>";
    StartsAtChar(s, k, css, i);
    if k + i < 7 {
      assert s[k + i] == "<style>"[k + i];
    } else {
      assert s[k + i] == css[k + i - 7];
      StyleBlockEarlyChar(css, k, k + i - 7);
    }
  }

  /** The replacement of a whole `<style>` element: its content goes through
      `rewriteCss`, whichever occurrence of the content `replace` finds first. */
  lemma StyleBlockReplaced(cfg: ProxyConfig, base: BaseUrl, css: string)
    requires '$' !in css && '$' !in cfg.prefix
    ensures var s := "<style>" + css + "</style>";
      StyleBlockReplacement(cfg, base, Match(|s|, s, css, "")) == "<style>" + RewriteCss(cfg, base, css) + "</style>"
  {
    var s := "<style>" + css + "</style>";
    var r := RewriteCss(cfg, base, css);
    assert s[7..7 + |css|] == css;
    assert StartsAt(s, 7, css);
    var k := IndexOfFrom(s, css, 0).value;
    if k == 7 {
      RewriteCssDollarFree(cfg, base, css);
      ReplaceFirstAt(s, css, r, 7);
      assert s[..7] == "<style>" && s[7 + |css|..] == "</style>";
    } else {
      forall i | 0 <= i < |css|
        ensures css[i] != '('
      {
        StyleBlockEarlyChar(css, k, i);
      }
      RewriteCssNoParen(cfg, base, css);
      ReplaceFirstSelf(s, css);
    }
  }

  /** A `<style>` element whose content holds no closing tag of its own is rewritten
      to the same element around the `rewriteCss` of its content. */
  lemma StyleBlockRewritten(cfg: ProxyConfig, base: BaseUrl, css: string)
    requires ClosesOnlyAtEnd(css)
    requires '$' !in css && '$' !in cfg.prefix
    ensures ReplaceAll(StyleBlock, "<style>" + css + "</style>", m => StyleBlockReplacement(cfg, base, m))
         == "<style>" + RewriteCss(cfg, base, css) + "</style>"
  {
    var s := "<style>" + css + "</style>";
    StyleBlockMatch(css);
    ReplaceAllWhole(StyleBlock, s, m => StyleBlockReplacement(cfg, base, m));
    StyleBlockReplaced(cfg, base, css);
  }

  function StylePasses(cfg: ProxyConfig, base: BaseUrl, html: string): string {
    var styled := ReplaceAll(InlineStyle, html, m => InlineStyleReplacement(cfg, base, m));
    ReplaceAll(StyleBlock, styled, m => StyleBlockReplacement(cfg, base, m))
  }

  // ---------------------------------------------------------------- script

  /** Where the script goes (lines 335-350): before the last `</body>`, else before the
      last `</html>`, else at the end. */
  function ScriptPoint(html: string): (k: nat)
    ensures k <= |html|
    ensures Contains(html, "</body>") ==> StartsAt(html, k, "</body>") && forall j :: k < j ==> !StartsAt(html, j, "</body>")
    ensures !Contains(html, "</body>") && Contains(html, "</html>") ==>
      StartsAt(html, k, "</html>") && forall j :: k < j ==> !StartsAt(html, j, "</html>")
    ensures !Contains(html, "</body>") && !Contains(html, "</html>") ==> k == |html|
  {
    if Contains(html, "</body>") then LastIndexOf(html, "</body>").value
    else match LastIndexOf(html, "</html>")
      case Some(k) => k
      case None => |html|
  }

  function WithScript(html: string, script: string): (r: string)
    ensures |r| == |html| + |script|
  {
    html[..ScriptPoint(html)] + script + html[ScriptPoint(html)..]
  }

  /** The script is inserted whole at the script point, and taking it out again gives
      the page back. */
  lemma ScriptInserted(html: string, script: string)
    ensures var k := ScriptPoint(html);
      WithScript(html, script)[k..k + |script|] == script
      && WithScript(html, script)[..k] + WithScript(html, script)[k + |script|..] == html
  {
    var k := ScriptPoint(html);
    var r := WithScript(html, script);
    assert r[k..k + |script|] == script;
    assert r[..k] == html[..k];
    assert r[k + |script|..] == html[k..];
  }

  // ---------------------------------------------------------------- rewriteHtml

  /** What `rewriteHtml(html, baseUrl, config)` returns. */
  function HtmlRewritten(cfg: ProxyConfig, base: BaseUrl, html: string): (r: string)
    ensures !cfg.rewriteUrls ==> r == html
    ensures cfg.rewriteUrls ==> Contains(r, RuntimeScript)
  {
    if !cfg.rewriteUrls then html
    else
      var h := StylePasses(cfg, base, AttributePasses(cfg, base, AttributeTable, WithBaseTag(base, html)));
      ScriptInserted(h, RuntimeScript);
      ContainsAt(WithScript(h, RuntimeScript), RuntimeScript, ScriptPoint(h));
      WithScript(h, RuntimeScript)
  }

  /** `rewriteHtml`: the passes run one after another over the page. */
  method RewriteHtml(cfg: ProxyConfig, base: BaseUrl, html: string) returns (r: string)
    ensures r == HtmlRewritten(cfg, base, html)
    ensures !cfg.rewriteUrls ==> r == html
  {
    if !cfg.rewriteUrls {
      return html;
    }
    var start := WithBaseTag(base, html);
    var rewritten := start;
    for i := 0 to |AttributeTable|
      invariant rewritten == AttributePasses(cfg, base, AttributeTable[..i], start)
    {
      assert AttributeTable[..i + 1][..i] == AttributeTable[..i];
      rewritten := AttributePass(cfg, base, AttributeTable[i], rewritten);
    }
    assert AttributeTable[..|AttributeTable|] == AttributeTable;
    rewritten := ReplaceAll(InlineStyle, rewritten, m => InlineStyleReplacement(cfg, base, m));
    rewritten := ReplaceAll(StyleBlock, rewritten, m => StyleBlockReplacement(cfg, base, m));
    r := WithScript(rewritten, RuntimeScript);
  }
}
