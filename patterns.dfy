/**
 * The regular expressions of `src/lib/proxy.ts`, each as a matcher that answers
 * whether the expression matches at a given index and, if so, where the match ends
 * and what its groups captured. Each matcher follows the expression's backtracking
 * order, so the match it reports is the one the JavaScript engine reports:
 * greedy runs take as much as they can, lazy ones as little, and alternatives are
 * tried left to right. `g`-flag replacement is `ReplaceAll`: matches are taken
 * leftmost first, and scanning resumes where the previous match ended.
 */
module Patterns {
  import opened Wrappers
  import opened JsString

  /** A match starting at some index: its end, its text, the capture that holds the
      URL (or the style content), and for the tag patterns the attribute capture. */
  datatype Match = Match(end: nat, text: string, capture: string, attribs: string)

  datatype Pattern =
    | HeadOpen                           // an opening `<head>` tag, attributes allowed (proxy.ts:111)
    | BaseOpen                           // `<base` followed by whitespace (proxy.ts:106)
    | TagAttr(tag: string, attr: string) // a tag of the attribute table with a quoted value (proxy.ts:147)
    | InlineStyle                        // a quoted `style=` value containing `url(...)` (proxy.ts:178)
    | StyleBlock                         // a `<style>` element and its content (proxy.ts:192)
    | CssUrl                             // `url(...)`, optionally quoted (proxy.ts:181, 364)
    | JsFetch                            // `fetch('...')` (proxy.ts:400)
    | JsNewUrl                           // `new URL('...')` (proxy.ts:402)
    | JsXhrOpen                          // `.open('GET', '...')` (proxy.ts:404)
    | JsPropAssign                       // `.src = '...'`, `.href = '...'` (proxy.ts:406)
    | JsLocation                         // `window.location.href = '...'` and shorter forms (proxy.ts:408)
    | JsHttpMethod                       // `.get('...')`, `.post(` ... (proxy.ts:410)
    | JsUrlLiteral                       // a quoted `http://`, `https://` or `//` literal (proxy.ts:413)

  const Quotes: set<char> := {'"', '\''}

  /** The URL a quoted-run group captures: non-empty and free of quotes. */
  predicate UrlRun(t: string) {
    t != [] && forall k :: 0 <= k < |t| ==> !IsQuote(t[k])
  }

  /** The end of the run of whitespace starting at `i` (`\s*`). */
  function SkipSpaces(s: string, i: nat): (j: nat)
    requires i <= |s|
    ensures i <= j <= |s|
    ensures forall k :: i <= k < j ==> IsSpace(s[k])
    ensures j < |s| ==> !IsSpace(s[j])
    decreases |s| - i
  {
    if i < |s| && IsSpace(s[i]) then SkipSpaces(s, i + 1) else i
  }

  /** The end of the run of characters outside `stops` starting at `i` (`[^...]*`). */
  function SkipUntil(s: string, i: nat, stops: set<char>): (j: nat)
    requires i <= |s|
    ensures i <= j <= |s|
    ensures forall k :: i <= k < j ==> s[k] !in stops
    ensures j < |s| ==> s[j] in stops
    decreases |s| - i
  {
    if i < |s| && s[i] !in stops then SkipUntil(s, i + 1, stops) else i
  }

  /** The end of the run of decimal digits starting at `i` (`\d*`). */
  function SkipDigits(s: string, i: nat): (j: nat)
    requires i <= |s|
    ensures i <= j <= |s|
    ensures forall k :: i <= k < j ==> IsDigit(s[k])
    ensures j < |s| ==> !IsDigit(s[j])
    decreases |s| - i
  {
    if i < |s| && IsDigit(s[i]) then SkipDigits(s, i + 1) else i
  }

  function Found(s: string, i: nat, end: nat, capture: string, attribs: string): (m: Match)
    requires i < end <= |s|
    ensures m.end == end && m.text == s[i..end] && m.capture == capture && m.attribs == attribs
  {
    Match(end, s[i..end], capture, attribs)
  }

  /** A quoted run `['"]([^'"]+)['"]` opening at `j`: the index of its closing quote. */
  function QuotedRun(s: string, j: nat): (r: Option<nat>)
    requires j <= |s|
    ensures r.Some? ==> j + 1 < r.value < |s| && IsQuote(s[j]) && IsQuote(s[r.value])
    ensures r.Some? ==> forall k :: j < k < r.value ==> !IsQuote(s[k])
    ensures r.Some? ==> UrlRun(s[j + 1..r.value])
  {
    if j < |s| && IsQuote(s[j]) then
      var u1 := SkipUntil(s, j + 1, Quotes);
      if j + 1 < u1 < |s| then
        var t := s[j + 1..u1];
        assert forall k :: 0 <= k < |t| ==> t[k] == s[j + 1 + k];
        Some(u1)
      else None
    else None
  }

  /** A non-empty quote-free run between two quotes is a quoted run. */
  lemma QuotedRunOf(s: string, j: nat, x: string)
    requires j + |x| + 1 < |s| && IsQuote(s[j]) && IsQuote(s[j + 1 + |x|])
    requires s[j + 1..j + 1 + |x|] == x
    requires x != [] && forall k :: 0 <= k < |x| ==> !IsQuote(x[k])
    ensures QuotedRun(s, j) == Some(j + 1 + |x|)
  {
    assert forall k :: j + 1 <= k < j + 1 + |x| ==> s[k] == x[k - j - 1];
    assert SkipUntil(s, j + 1, Quotes) == j + 1 + |x|;
  }

  /** `<head` then `>`, or whitespace, anything but `>`, and `>`. */
  function HeadAt(s: string, i: nat): (r: Option<Match>)
    requires i <= |s|
    ensures r.Some? ==> i < r.value.end <= |s| && r.value.text == s[i..(r.value.end)]
    ensures r.Some? ==> StartsAtCi(s, i, "<head") && s[r.value.end - 1] == '>'
  {
    var j := i + 5;
    if !StartsAtCi(s, i, "<head") then None
    else if j < |s| && s[j] == '>' then Some(Found(s, i, j + 1, "", ""))
    else if j < |s| && IsSpace(s[j]) then
      var g := SkipUntil(s, j + 1, {'>'});
      if g < |s| then Some(Found(s, i, g + 1, "", "")) else None
    else None
  }

  function BaseAt(s: string, i: nat): (r: Option<Match>)
    requires i <= |s|
    ensures r.Some? ==> i < r.value.end <= |s| && r.value.text == s[i..(r.value.end)]
    ensures r.Some? ==> StartsAtCi(s, i, "<base") && i + 5 < |s| && IsSpace(s[i + 5])
  {
    if StartsAtCi(s, i, "<base") && i + 5 < |s| && IsSpace(s[i + 5]) then Some(Found(s, i, i + 6, "", ""))
    else None
  }

  /** The attribute `attr="value"` (either quote, value non-empty) starting at `p`,
      then anything but `>` and the closing `>`: the value's bounds and the index of
      that `>`. */
  function AttrValueAt(attr: string, s: string, p: nat): (r: Option<(nat, nat, nat)>)
    requires p <= |s|
    ensures r.Some? ==> p < r.value.0 < r.value.1 < r.value.2 < |s|
    ensures r.Some? ==> UrlRun(s[r.value.0..r.value.1]) && s[r.value.2] == '>'
  {
    var v := p + |attr| + 1;
    if !StartsAtCi(s, p, attr + "=") || v >= |s| then None
    else match QuotedRun(s, v)
      case None => None
      case Some(u1) =>
        var gt := SkipUntil(s, u1 + 1, {'>'});
        if gt < |s| then Some((v + 1, u1, gt)) else None
  }

  /** The lazy attribute prefix: candidate positions `p` from `a0` upwards, never
      past a `>`. */
  function AttrFrom(attr: string, s: string, i: nat, a0: nat, p: nat): (r: Option<Match>)
    requires i < a0 <= p <= |s|
    ensures r.Some? ==> p < r.value.end <= |s| && r.value.text == s[i..(r.value.end)]
    ensures r.Some? ==> UrlRun(r.value.capture) && s[r.value.end - 1] == '>'
    decreases |s| - p
  {
    if p == |s| || s[p] == '>' then None
    else
      var v := AttrValueAt(attr, s, p);
      if v.Some? then Some(Found(s, i, v.value.2 + 1, s[v.value.0..v.value.1], s[a0..v.value.2]))
      else AttrFrom(attr, s, i, a0, p + 1)
  }

  /** An attribute value right at the start of the search is the match. */
  lemma AttrFromFirst(attr: string, s: string, i: nat, a0: nat, u0: nat, u1: nat, gt: nat)
    requires i < a0 < |s| && s[a0] != '>'
    requires AttrValueAt(attr, s, a0) == Some((u0, u1, gt))
    ensures AttrFrom(attr, s, i, a0, a0) == Some(Match(gt + 1, s[i..gt + 1], s[u0..u1], s[a0..gt]))
  {
  }

  /** `<tag`, whitespace, then the first `attr=` with a quoted non-empty value. */
  function TagAttrAt(tag: string, attr: string, s: string, i: nat): (r: Option<Match>)
    requires i <= |s|
    ensures r.Some? ==> i < r.value.end <= |s| && r.value.text == s[i..(r.value.end)]
    ensures r.Some? ==> StartsAtCi(s, i, "<" + tag) && s[r.value.end - 1] == '>' && UrlRun(r.value.capture)
  {
    var n := i + 1 + |tag|;
    if StartsAtCi(s, i, "<" + tag) && n < |s| && IsSpace(s[n]) then
      AttrFrom(attr, s, i, SkipSpaces(s, n), SkipSpaces(s, n))
    else None
  }

  /** `<tag` and one space open the attribute search at the next character. */
  lemma TagOpenAt(tag: string, attr: string, s: string, i: nat)
    requires i + |tag| + 2 < |s| && s[i..i + 1 + |tag|] == "<" + tag
    requires s[i + 1 + |tag|] == ' ' && !IsSpace(s[i + 2 + |tag|])
    ensures TagAttrAt(tag, attr, s, i) == AttrFrom(attr, s, i, i + 2 + |tag|, i + 2 + |tag|)
  {
    assert forall k :: 0 <= k < 1 + |tag| ==> s[i + k] == ("<" + tag)[k];
    assert StartsAtCi(s, i, "<" + tag);
    assert SkipSpaces(s, i + 1 + |tag|) == i + 2 + |tag|;
  }

  /** For `url(` at `k` inside a style value: the text up to the first `)` must be
      non-empty, and a quote must follow after it; the index of that quote. */
  function StyleTailAt(s: string, k: nat): (r: Option<nat>)
    requires k <= |s|
    ensures r.Some? ==> k < r.value < |s| && IsQuote(s[r.value])
  {
    if !StartsAtCi(s, k, "url(") then None
    else
      var r1 := SkipUntil(s, k + 4, {')'});
      if r1 == k + 4 || r1 == |s| then None
      else
        var q := SkipUntil(s, r1 + 1, Quotes);
        if q < |s| then Some(q) else None
  }

  /** The greedy quote-free prefix of a style value gives back characters one at a
      time, so the `url(` positions are tried from the right. */
  function StyleFrom(s: string, i: nat, c0: nat, k: nat): (r: Option<Match>)
    requires i < c0 <= k <= |s|
    ensures r.Some? ==> i < r.value.end <= |s| && r.value.text == s[i..(r.value.end)]
    ensures r.Some? ==> IsQuote(s[r.value.end - 1])
    decreases k
  {
    if k == c0 then None
    else match StyleTailAt(s, k - 1)
      case Some(q) => Some(Found(s, i, q + 1, s[c0..q], ""))
      case None => StyleFrom(s, i, c0, k - 1)
  }

  /** The scan from `k` down to `c0` ends at the quote `z` when some position on the
      way opens a tail ending there and every tail that opens ends there. */
  lemma {:induction false} StyleFromFinds(s: string, i: nat, c0: nat, k: nat, w: nat, z: nat)
    requires i < c0 <= w < k <= |s| && z < |s|
    requires StyleTailAt(s, w) == Some(z)
    requires forall j :: c0 <= j < k && StyleTailAt(s, j).Some? ==> StyleTailAt(s, j) == Some(z)
    ensures StyleFrom(s, i, c0, k) == Some(Found(s, i, z + 1, s[c0..z], ""))
    decreases k, 1
  {
    if StyleTailAt(s, k - 1).None? {
      StyleFromPast(s, i, c0, k, w, z);
    } else {
      StyleFromHere(s, i, c0, k, z);
    }
  }

  /** The step of `StyleFromFinds` past a position that opens no tail. */
  lemma {:induction false} StyleFromPast(s: string, i: nat, c0: nat, k: nat, w: nat, z: nat)
    requires i < c0 <= w < k <= |s| && z < |s|
    requires StyleTailAt(s, w) == Some(z) && StyleTailAt(s, k - 1).None?
    requires forall j :: c0 <= j < k && StyleTailAt(s, j).Some? ==> StyleTailAt(s, j) == Some(z)
    ensures StyleFrom(s, i, c0, k) == Some(Found(s, i, z + 1, s[c0..z], ""))
    decreases k, 0
  {
    StyleFromFinds(s, i, c0, k - 1, w, z);
    StyleFromSkip(s, i, c0, k);
  }

  /** A position that opens no tail is passed over. */
  lemma StyleFromSkip(s: string, i: nat, c0: nat, k: nat)
    requires i < c0 < k <= |s| && StyleTailAt(s, k - 1).None?
    ensures StyleFrom(s, i, c0, k) == StyleFrom(s, i, c0, k - 1)
  {
  }

  /** The first position from the right that opens a tail decides the match. */
  lemma StyleFromHere(s: string, i: nat, c0: nat, k: nat, z: nat)
    requires i < c0 < k <= |s| && z < |s| && StyleTailAt(s, k - 1) == Some(z)
    ensures StyleFrom(s, i, c0, k) == Some(Found(s, i, z + 1, s[c0..z], ""))
  {
  }

  function InlineStyleAt(s: string, i: nat): (r: Option<Match>)
    requires i <= |s|
    ensures r.Some? ==> i < r.value.end <= |s| && r.value.text == s[i..(r.value.end)]
    ensures r.Some? ==> StartsAtCi(s, i, "style=") && i + 6 < |s| && IsQuote(s[i + 6]) && IsQuote(s[r.value.end - 1])
  {
    if StartsAtCi(s, i, "style=") && i + 6 < |s| && IsQuote(s[i + 6]) then
      StyleFrom(s, i, i + 7, SkipUntil(s, i + 7, Quotes))
    else None
  }

  /** Every inline-style match holds the `url(` the regular expression demands, so
      its value contains a `(`. */
  lemma InlineCaptureHasParen(s: string, i: nat)
    requires i <= |s| && InlineStyleAt(s, i).Some?
    ensures '(' in InlineStyleAt(s, i).value.capture
  {
    StyleFromHasParen(s, i, i + 7, SkipUntil(s, i + 7, Quotes));
  }

  lemma {:induction false} StyleFromHasParen(s: string, i: nat, c0: nat, k: nat)
    requires i < c0 <= k <= |s| && StyleFrom(s, i, c0, k).Some?
    ensures '(' in StyleFrom(s, i, c0, k).value.capture
    decreases k
  {
    match StyleTailAt(s, k - 1)
    case Some(q) =>
      assert Lower(s[k - 1 + 3]) == Lower("url("[3]);
      LowerNonLetter(s[k + 2], '(');
      assert s[c0..q][k + 2 - c0] == '(';
    case None =>
      StyleFromHasParen(s, i, c0, k - 1);
  }

  /** `<style`, anything but `>`, `>`, then the content up to the first `</style>`. */
  function StyleBlockAt(s: string, i: nat): (r: Option<Match>)
    requires i <= |s|
    ensures r.Some? ==> i < r.value.end <= |s| && r.value.text == s[i..(r.value.end)]
    ensures r.Some? ==> StartsAtCi(s, i, "<style") && 8 <= r.value.end && StartsAtCi(s, r.value.end - 8, "</style>")
  {
    if !StartsAtCi(s, i, "<style") then None
    else
      var g := SkipUntil(s, i + 6, {'>'});
      if g == |s| then None
      else match IndexOfCiFrom(s, "</style>", g + 1)
        case None => None
        case Some(e) => Some(Found(s, i, e + 8, s[g + 1..e], ""))
  }

  /** `url(`, an optional quote, a non-empty run free of quotes and `)`, an optional
      quote, and `)`. */
  function CssUrlAt(s: string, i: nat): (r: Option<Match>)
    requires i <= |s|
    ensures r.Some? ==> i < r.value.end <= |s| && r.value.text == s[i..(r.value.end)]
    ensures r.Some? ==> StartsAtCi(s, i, "url(") && s[r.value.end - 1] == ')' && UrlRun(r.value.capture)
    ensures r.Some? ==> ')' !in r.value.capture
  {
    if !StartsAtCi(s, i, "url(") then None
    else
      var j := i + 4;
      var j1 := if j < |s| && IsQuote(s[j]) then j + 1 else j;
      var k := SkipUntil(s, j1, {'"', '\'', ')'});
      if k == j1 then None
      else
        var k1 := if k < |s| && IsQuote(s[k]) then k + 1 else k;
        if k1 < |s| && s[k1] == ')' then Some(Found(s, i, k1 + 1, s[j1..k], "")) else None
  }

  /** After an opening `(` that ends at `j`: optional whitespace, a quoted URL,
      optional whitespace and one of the `closers`. */
  function CallTail(s: string, i: nat, j: nat, closers: set<char>): (r: Option<Match>)
    requires i < j <= |s|
    ensures r.Some? ==> j < r.value.end <= |s| && r.value.text == s[i..(r.value.end)]
    ensures r.Some? ==> UrlRun(r.value.capture) && s[r.value.end - 1] in closers
  {
    var a := SkipSpaces(s, j);
    match QuotedRun(s, a)
    case None => None
    case Some(u1) =>
      var k := SkipSpaces(s, u1 + 1);
      if k < |s| && s[k] in closers then Some(Found(s, i, k + 1, s[a + 1..u1], "")) else None
  }

  /** After a property name ending at `n`: optional whitespace, `=`, optional
      whitespace and a quoted URL. */
  function AssignTail(s: string, i: nat, n: nat): (r: Option<Match>)
    requires i < n <= |s|
    ensures r.Some? ==> n < r.value.end <= |s| && r.value.text == s[i..(r.value.end)]
    ensures r.Some? ==> UrlRun(r.value.capture) && IsQuote(s[r.value.end - 1])
  {
    var k := SkipSpaces(s, n);
    if k == |s| || s[k] != '=' then None
    else
      var a := SkipSpaces(s, k + 1);
      match QuotedRun(s, a)
      case None => None
      case Some(u1) => Some(Found(s, i, u1 + 1, s[a + 1..u1], ""))
  }

  function JsFetchAt(s: string, i: nat): (r: Option<Match>)
    requires i <= |s|
    ensures r.Some? ==> i < r.value.end <= |s| && r.value.text == s[i..(r.value.end)]
    ensures r.Some? ==> StartsAt(s, i, "fetch(") && s[r.value.end - 1] == ')' && UrlRun(r.value.capture)
  {
    if StartsAt(s, i, "fetch(") then CallTail(s, i, i + 6, {')'}) else None
  }

  function JsNewUrlAt(s: string, i: nat): (r: Option<Match>)
    requires i <= |s|
    ensures r.Some? ==> i < r.value.end <= |s| && r.value.text == s[i..(r.value.end)]
    ensures r.Some? ==> StartsAt(s, i, "new") && s[r.value.end - 1] == ')' && UrlRun(r.value.capture)
  {
    if StartsAt(s, i, "new") && i + 3 < |s| && IsSpace(s[i + 3]) then
      var j := SkipSpaces(s, i + 3);
      if StartsAt(s, j, "URL(") then
        var r := CallTail(s, i, j + 4, {')'});
        assert r.Some? ==> i < r.value.end;
        r
      else None
    else None
  }

  /** `.open(`, a quoted method, a comma, then the quoted URL followed by `,` or `)`. */
  function JsXhrOpenAt(s: string, i: nat): (r: Option<Match>)
    requires i <= |s|
    ensures r.Some? ==> i < r.value.end <= |s| && r.value.text == s[i..(r.value.end)]
    ensures r.Some? ==> StartsAt(s, i, ".open(") && s[r.value.end - 1] in {',', ')'} && UrlRun(r.value.capture)
  {
    if !StartsAt(s, i, ".open(") then None
    else match QuotedRun(s, SkipSpaces(s, i + 6))
      case None => None
      case Some(m1) =>
        if m1 + 1 < |s| && s[m1 + 1] == ',' then
          var r := CallTail(s, i, m1 + 2, {',', ')'});
          assert r.Some? ==> i < r.value.end;
          r
        else None
  }

  function JsPropAssignAt(s: string, i: nat): (r: Option<Match>)
    requires i <= |s|
    ensures r.Some? ==> i < r.value.end <= |s| && r.value.text == s[i..(r.value.end)]
    ensures r.Some? ==> (StartsAt(s, i, ".src") || StartsAt(s, i, ".href")) && IsQuote(s[r.value.end - 1]) && UrlRun(r.value.capture)
  {
    if StartsAt(s, i, ".src") then AssignTail(s, i, i + 4)
    else if StartsAt(s, i, ".href") then AssignTail(s, i, i + 5)
    else None
  }

  /** The optional `window.` and `.href` parts, tried present before absent. */
  const LocationHeads: seq<string> := ["window.location.href", "window.location", "location.href", "location"]

  function LocationFrom(s: string, i: nat, heads: seq<string>): (r: Option<Match>)
    requires i <= |s|
    requires forall h :: h in heads ==> |h| > 0
    ensures r.Some? ==> i < r.value.end <= |s| && r.value.text == s[i..(r.value.end)]
    ensures r.Some? ==> IsQuote(s[r.value.end - 1]) && UrlRun(r.value.capture)
  {
    if heads == [] then None
    else if StartsAt(s, i, heads[0]) && AssignTail(s, i, i + |heads[0]|).Some? then AssignTail(s, i, i + |heads[0]|)
    else LocationFrom(s, i, heads[1..])
  }

  function JsLocationAt(s: string, i: nat): (r: Option<Match>)
    requires i <= |s|
    ensures r.Some? ==> i < r.value.end <= |s| && r.value.text == s[i..(r.value.end)]
    ensures r.Some? ==> IsQuote(s[r.value.end - 1]) && UrlRun(r.value.capture)
  {
    LocationFrom(s, i, LocationHeads)
  }

  /** The request-method names, in the order of the alternation. */
  const HttpMethods: seq<string> := ["get", "post", "put", "patch", "delete"]

  function MethodFrom(s: string, i: nat, j: nat, names: seq<string>): (r: Option<Match>)
    requires i < j <= |s|
    ensures r.Some? ==> j < r.value.end <= |s| && r.value.text == s[i..(r.value.end)]
    ensures r.Some? ==> IsQuote(s[r.value.end - 1]) && UrlRun(r.value.capture)
  {
    if names == [] then None
    else if !StartsAt(s, j, names[0] + "(") then MethodFrom(s, i, j, names[1..])
    else
      var a := SkipSpaces(s, j + |names[0]| + 1);
      match QuotedRun(s, a)
      case Some(u1) => Some(Found(s, i, u1 + 1, s[a + 1..u1], ""))
      case None => MethodFrom(s, i, j, names[1..])
  }

  /** `.`, optional whitespace, a method name, `(`, optional whitespace, a quoted URL. */
  function JsHttpMethodAt(s: string, i: nat): (r: Option<Match>)
    requires i <= |s|
    ensures r.Some? ==> i < r.value.end <= |s| && r.value.text == s[i..(r.value.end)]
    ensures r.Some? ==> StartsAt(s, i, ".") && IsQuote(s[r.value.end - 1]) && UrlRun(r.value.capture)
  {
    if StartsAt(s, i, ".") then MethodFrom(s, i, SkipSpaces(s, i + 1), HttpMethods) else None
  }

  /** A quote, `https://`, `http://` or `//`, a non-empty quote-free run, a quote; the
      capture is everything between the quotes. */
  function JsUrlLiteralAt(s: string, i: nat): (r: Option<Match>)
    requires i <= |s|
    ensures r.Some? ==> i < r.value.end <= |s| && r.value.text == s[i..(r.value.end)]
    ensures r.Some? ==> IsQuote(s[i]) && IsQuote(s[r.value.end - 1]) && UrlRun(r.value.capture)
    ensures r.Some? ==>
      StartsWith(r.value.capture, "https://") || StartsWith(r.value.capture, "http://") || StartsWith(r.value.capture, "//")
  {
    if i == |s| || !IsQuote(s[i]) then None
    else
      var j := if StartsAt(s, i + 1, "https://") then i + 9
               else if StartsAt(s, i + 1, "http://") then i + 8
               else if StartsAt(s, i + 1, "//") then i + 3
               else i;
      if j == i then None
      else
        var u1 := SkipUntil(s, j, Quotes);
        if j < u1 < |s| then
          var lead := if j == i + 9 then "https://" else if j == i + 8 then "http://" else "//";
          LiteralCapture(s, i, j, u1, lead);
          Some(Found(s, i, u1 + 1, s[i + 1..u1], ""))
        else None
  }

  /** The capture of a URL literal: its scheme lead, then a quote-free run. */
  lemma LiteralCapture(s: string, i: nat, j: nat, u1: nat, lead: string)
    requires lead == "https://" || lead == "http://" || lead == "//"
    requires StartsAt(s, i + 1, lead) && j == i + 1 + |lead| && j < u1 <= |s|
    requires forall k :: j <= k < u1 ==> !IsQuote(s[k])
    ensures UrlRun(s[i + 1..u1]) && StartsWith(s[i + 1..u1], lead)
  {
    var t := s[i + 1..u1];
    forall k | 0 <= k < |t| ensures !IsQuote(t[k]) {
      if k < |lead| {
        assert t[k] == s[i + 1..i + 1 + |lead|][k] == lead[k];
      } else {
        assert t[k] == s[i + 1 + k];
      }
    }
    assert t[..|lead|] == lead;
  }

  /** Does `p` match at index `i` of `s`, and how? */
  function FindAt(p: Pattern, s: string, i: nat): (r: Option<Match>)
    requires i <= |s|
    ensures r.Some? ==> i < r.value.end <= |s| && r.value.text == s[i..(r.value.end)]
  {
    match p
    case HeadOpen => HeadAt(s, i)
    case BaseOpen => BaseAt(s, i)
    case TagAttr(tag, attr) => TagAttrAt(tag, attr, s, i)
    case InlineStyle => InlineStyleAt(s, i)
    case StyleBlock => StyleBlockAt(s, i)
    case CssUrl => CssUrlAt(s, i)
    case JsFetch => JsFetchAt(s, i)
    case JsNewUrl => JsNewUrlAt(s, i)
    case JsXhrOpen => JsXhrOpenAt(s, i)
    case JsPropAssign => JsPropAssignAt(s, i)
    case JsLocation => JsLocationAt(s, i)
    case JsHttpMethod => JsHttpMethodAt(s, i)
    case JsUrlLiteral => JsUrlLiteralAt(s, i)
  }

  /** `s.replace(regex, f)` for a `g`-flag regex, from index `i` on: the leftmost
      match is replaced by `f` of it and the scan resumes at its end; characters no
      match starts at are kept. The callback's result is inserted as is. */
  function ReplaceFrom(p: Pattern, s: string, i: nat, f: Match -> string): string
    requires i <= |s|
    decreases |s| - i
  {
    if i == |s| then ""
    else match FindAt(p, s, i)
      case Some(m) => f(m) + ReplaceFrom(p, s, m.end, f)
      case None => [s[i]] + ReplaceFrom(p, s, i + 1, f)
  }

  function ReplaceAll(p: Pattern, s: string, f: Match -> string): string {
    ReplaceFrom(p, s, 0, f)
  }

  /** A string that is one match as a whole is replaced by the callback's result. */
  lemma ReplaceAllWhole(p: Pattern, s: string, f: Match -> string)
    requires FindAt(p, s, 0).Some? && FindAt(p, s, 0).value.end == |s|
    ensures ReplaceAll(p, s, f) == f(FindAt(p, s, 0).value)
  {
    assert ReplaceFrom(p, s, |s|, f) == "";
  }

  /** A match the callback gives back unchanged, followed by an unchanged rest. */
  lemma KeptMatchStep(p: Pattern, s: string, i: nat, f: Match -> string, m: Match)
    requires i < |s| && FindAt(p, s, i) == Some(m) && f(m) == m.text
    requires ReplaceFrom(p, s, m.end, f) == s[m.end..]
    ensures ReplaceFrom(p, s, i, f) == s[i..]
  {
    assert ReplaceFrom(p, s, i, f) == f(m) + ReplaceFrom(p, s, m.end, f);
    SuffixSplit(s, i, m.end);
  }

  /** A character no match starts at, followed by an unchanged rest. */
  lemma KeptCharStep(p: Pattern, s: string, i: nat, f: Match -> string)
    requires i < |s| && FindAt(p, s, i).None?
    requires ReplaceFrom(p, s, i + 1, f) == s[i + 1..]
    ensures ReplaceFrom(p, s, i, f) == s[i..]
  {
    assert ReplaceFrom(p, s, i, f) == [s[i]] + ReplaceFrom(p, s, i + 1, f);
    SuffixCons(s, i);
  }

  /** Characters no match starts at are kept as they are. */
  lemma {:induction false} ReplaceFromKept(p: Pattern, s: string, i: nat, j: nat, f: Match -> string)
    requires i <= j <= |s|
    requires forall k :: i <= k < j ==> FindAt(p, s, k).None?
    ensures ReplaceFrom(p, s, i, f) == s[i..j] + ReplaceFrom(p, s, j, f)
    decreases j - i
  {
    if i < j {
      ReplaceFromKept(p, s, i + 1, j, f);
      ReplaceFromChar(p, s, i, f);
      SliceCons(s, i, j);
      ConcatAssoc([s[i]], s[i + 1..j], ReplaceFrom(p, s, j, f));
    }
  }

  /** A match is replaced and the scan resumes at its end. */
  lemma ReplaceFromMatch(p: Pattern, s: string, i: nat, f: Match -> string, m: Match)
    requires i < |s| && FindAt(p, s, i) == Some(m)
    ensures ReplaceFrom(p, s, i, f) == f(m) + ReplaceFrom(p, s, m.end, f)
  {
  }

  /** A string with exactly one match: the text around it is kept, and the match is
      replaced. */
  lemma ReplaceAllOne(p: Pattern, s: string, i: nat, f: Match -> string, m: Match)
    requires i < |s| && FindAt(p, s, i) == Some(m)
    requires forall j :: 0 <= j < i ==> FindAt(p, s, j).None?
    requires forall j :: m.end <= j <= |s| ==> FindAt(p, s, j).None?
    ensures ReplaceAll(p, s, f) == s[..i] + f(m) + s[m.end..]
  {
    ReplaceFromKept(p, s, 0, i, f);
    ReplaceFromMatch(p, s, i, f, m);
    ReplaceFromKept(p, s, m.end, |s|, f);
    ReplaceFromEnd(p, s, f);
    assert s[m.end..|s|] == s[m.end..];
    ConcatChain(s[..i], f(m), s[m.end..]);
  }

  lemma ReplaceFromEnd(p: Pattern, s: string, f: Match -> string)
    ensures ReplaceFrom(p, s, |s|, f) == ""
  {
  }

  /** A character no match starts at is copied. */
  lemma ReplaceFromChar(p: Pattern, s: string, i: nat, f: Match -> string)
    requires i < |s| && FindAt(p, s, i).None?
    ensures ReplaceFrom(p, s, i, f) == [s[i]] + ReplaceFrom(p, s, i + 1, f)
  {
  }

  /** A callback that gives every match its own text back leaves the string as it was. */
  lemma {:induction false} ReplaceFromIdentity(p: Pattern, s: string, i: nat, f: Match -> string)
    requires i <= |s|
    requires forall j :: i <= j <= |s| && FindAt(p, s, j).Some? ==> f(FindAt(p, s, j).value) == FindAt(p, s, j).value.text
    ensures ReplaceFrom(p, s, i, f) == s[i..]
    decreases |s| - i
  {
    if i < |s| {
      var r := FindAt(p, s, i);
      if r.Some? {
        ReplaceFromIdentity(p, s, r.value.end, f);
        KeptMatchStep(p, s, i, f, r.value);
      } else {
        ReplaceFromIdentity(p, s, i + 1, f);
        KeptCharStep(p, s, i, f);
      }
    }
  }

  /** The leftmost match at or after `i`, with the index it starts at (`RegExp.exec`
      without the `g` flag when `i` is 0). */
  function FirstMatch(p: Pattern, s: string, i: nat): (r: Option<(nat, Match)>)
    requires i <= |s|
    ensures r.Some? ==> i <= r.value.0 <= |s| && FindAt(p, s, r.value.0) == Some(r.value.1)
    ensures r.Some? ==> forall j :: i <= j < r.value.0 ==> FindAt(p, s, j).None?
    ensures r.None? ==> forall j :: i <= j <= |s| ==> FindAt(p, s, j).None?
    decreases |s| - i
  {
    var here := FindAt(p, s, i);
    if here.Some? then Some((i, here.value))
    else if i == |s| then None
    else
      var r := FirstMatch(p, s, i + 1);
      assert forall j :: i <= j <= i ==> FindAt(p, s, j) == here;
      r
  }

  /** `regex.test(s)`. */
  predicate Test(p: Pattern, s: string) {
    FirstMatch(p, s, 0).Some?
  }

  /** `s.replace(regex, match => match + t)` without the `g` flag: `t` is inserted
      right after the leftmost match. */
  function InsertAfterFirst(p: Pattern, s: string, t: string): (r: string)
    ensures !Test(p, s) ==> r == s
    ensures Test(p, s) ==>
      var e := FirstMatch(p, s, 0).value.1.end;
      e <= |s| && r == s[..e] + t + s[e..]
  {
    match FirstMatch(p, s, 0)
    case None => s
    case Some((_, m)) => s[..m.end] + t + s[m.end..]
  }
}
