/**
 * The JavaScript string built-ins the proxy relies on, over `string` (a sequence of
 * characters): `startsWith`, `includes`, `indexOf`, `lastIndexOf`, `trim`, `split`,
 * `join`, and `replace` with a string pattern, including the `$` patterns that
 * `replace` expands in its replacement string.
 */
module JsString {
  import opened Wrappers

  /** What the regular-expression class `\s` matches and what `trim` removes:
      JavaScript's WhiteSpace and LineTerminator characters. */
  predicate IsSpace(c: char) {
    c == '\t' || c == '\n' || c == '\U{B}' || c == '\U{C}' || c == '\r' || c == ' '
    || c == '\U{A0}' || c == '\U{1680}' || ('\U{2000}' <= c <= '\U{200A}')
    || c == '\U{2028}' || c == '\U{2029}' || c == '\U{202F}' || c == '\U{205F}'
    || c == '\U{3000}' || c == '\U{FEFF}'
  }

  /** The characters that `.` refuses to match in a regular expression without the `s` flag. */
  predicate IsLineTerminator(c: char) {
    c == '\n' || c == '\r' || c == '\U{2028}' || c == '\U{2029}'
  }

  predicate IsDigit(c: char) {
    '0' <= c <= '9'
  }

  predicate IsQuote(c: char) {
    c == '"' || c == '\''
  }

  /** ASCII lower-casing: under the `i` flag (without `u`) an ASCII letter matches
      exactly its two ASCII cases, and no other character. */
  function Lower(c: char): char {
    if 'A' <= c <= 'Z' then (c as int + 32) as char else c
  }

  /** `p` occurs in `s` at index `i` (case-sensitive). */
  predicate StartsAt(s: string, i: nat, p: string) {
    i + |p| <= |s| && s[i..i + |p|] == p
  }

  predicate StartsWith(s: string, p: string) {
    StartsAt(s, 0, p)
  }

  /** `p` occurs in `s` at index `i`, ASCII letters compared without regard to case. */
  predicate StartsAtCi(s: string, i: nat, p: string) {
    i + |p| <= |s| && forall k :: 0 <= k < |p| ==> Lower(s[i + k]) == Lower(p[k])
  }

  /** `s.indexOf(p, from)`: the first occurrence of `p` at or after `from`. */
  function IndexOfFrom(s: string, p: string, from: nat): (r: Option<nat>)
    ensures r.Some? ==> from <= r.value && StartsAt(s, r.value, p)
    ensures r.Some? ==> forall k :: from <= k < r.value ==> !StartsAt(s, k, p)
    ensures r.None? ==> forall k :: from <= k ==> !StartsAt(s, k, p)
    decreases |s| - from
  {
    if from + |p| > |s| then None
    else if StartsAt(s, from, p) then Some(from)
    else IndexOfFrom(s, p, from + 1)
  }

  /** The first occurrence of `p` at or after `from`, ASCII case ignored. */
  function IndexOfCiFrom(s: string, p: string, from: nat): (r: Option<nat>)
    ensures r.Some? ==> from <= r.value && StartsAtCi(s, r.value, p)
    ensures r.Some? ==> forall k :: from <= k < r.value ==> !StartsAtCi(s, k, p)
    ensures r.None? ==> forall k :: from <= k ==> !StartsAtCi(s, k, p)
    decreases |s| - from
  {
    if from + |p| > |s| then None
    else if StartsAtCi(s, from, p) then Some(from)
    else IndexOfCiFrom(s, p, from + 1)
  }

  /** `s.includes(p)`. */
  predicate Contains(s: string, p: string) {
    IndexOfFrom(s, p, 0).Some?
  }

  /** Searches downwards from `j` for the last occurrence of `p`. */
  function LastIndexFrom(s: string, p: string, j: nat): (r: Option<nat>)
    ensures r.Some? ==> r.value <= j && StartsAt(s, r.value, p)
    ensures r.Some? ==> forall k :: r.value < k <= j ==> !StartsAt(s, k, p)
    ensures r.None? ==> forall k :: 0 <= k <= j ==> !StartsAt(s, k, p)
    decreases j
  {
    if StartsAt(s, j, p) then Some(j)
    else if j == 0 then None
    else LastIndexFrom(s, p, j - 1)
  }

  /** `s.lastIndexOf(p)`, with `None` for -1. */
  function LastIndexOf(s: string, p: string): (r: Option<nat>)
    ensures r.Some? ==> StartsAt(s, r.value, p)
    ensures r.Some? ==> forall k :: r.value < k ==> !StartsAt(s, k, p)
    ensures r.None? ==> forall k :: 0 <= k ==> !StartsAt(s, k, p)
  {
    LastIndexFrom(s, p, |s|)
  }

  /** Every piece of an occurrence is found at the matching offset. */
  lemma StartsAtSlice(s: string, i: nat, p: string, j: nat, k: nat)
    requires StartsAt(s, i, p) && j <= k <= |p|
    ensures s[i + j..i + k] == p[j..k]
  {
    var w := s[i..i + |p|];
    assert w == p;
    assert forall n :: 0 <= n < k - j ==> w[j..k][n] == s[i + j..i + k][n];
  }

  lemma StartsAtChar(s: string, i: nat, p: string, n: nat)
    requires StartsAt(s, i, p) && n < |p|
    ensures s[i + n] == p[n]
  {
    assert s[i + n] == s[i..i + |p|][n];
  }

  /** A suffix is the slice up to `j` followed by the rest. */
  lemma SuffixSplit(s: string, i: nat, j: nat)
    requires i <= j <= |s|
    ensures s[i..j] + s[j..] == s[i..]
  {
  }

  /** A string is its first `n` characters followed by the rest. */
  lemma PrefixSplit(s: string, n: nat)
    requires n <= |s|
    ensures s[..n] + s[n..] == s
  {
  }

  /** A non-empty suffix is its first character followed by the rest. */
  lemma SuffixCons(s: string, i: nat)
    requires i < |s|
    ensures s[i..] == [s[i]] + s[i + 1..]
  {
  }

  lemma ConcatAssoc(x: string, y: string, z: string)
    ensures x + (y + z) == x + y + z
  {
  }

  lemma ConcatChain(x: string, y: string, z: string)
    ensures x + (y + (z + "")) == x + y + z
  {
  }

  /** A slice is its first character followed by the rest. */
  lemma SliceCons(s: string, i: nat, j: nat)
    requires i < j <= |s|
    ensures s[i..j] == [s[i]] + s[i + 1..j]
  {
  }

  /** A slice of a slice is a slice of the whole. */
  lemma SliceOfSlice(s: string, a: nat, b: nat, x: nat, y: nat)
    requires a <= b <= |s| && x <= y <= b - a
    ensures s[a..b][x..y] == s[a + x..a + y]
  {
    assert forall t :: 0 <= t < y - x ==> s[a..b][x..y][t] == s[a + x + t];
  }

  lemma ContainsAt(s: string, p: string, k: nat)
    requires StartsAt(s, k, p)
    ensures Contains(s, p)
  {
  }

  /** The first case-insensitive occurrence at or after `from`. */
  lemma {:induction false} IndexOfCiAt(s: string, p: string, from: nat, k: nat)
    requires from <= k && StartsAtCi(s, k, p)
    requires forall j :: from <= j < k ==> !StartsAtCi(s, j, p)
    ensures IndexOfCiFrom(s, p, from) == Some(k)
    decreases k - from
  {
    if from < k {
      IndexOfCiAt(s, p, from + 1, k);
    }
  }

  /** The middle piece of `x + y + z`, and where its characters sit. */
  lemma PieceChars(s: string, x: string, y: string, z: string)
    requires s == x + y + z
    ensures |s| == |x| + |y| + |z| && s[|x|..|x| + |y|] == y
    ensures forall j :: |x| <= j < |x| + |y| ==> s[j] == y[j - |x|]
  {
    assert s[|x|..|x| + |y|] == y;
  }

  /** A case-insensitive occurrence past a prefix is one in the rest. */
  lemma StartsAtCiShift(pre: string, t: string, j: nat, p: string)
    ensures StartsAtCi(pre + t, |pre| + j, p) <==> StartsAtCi(t, j, p)
  {
    assert forall k :: 0 <= k < |t| ==> (pre + t)[|pre| + k] == t[k];
  }

  /** Lower-casing leaves every character but the capital letters alone, so only the
      character itself lower-cases to a non-letter. */
  lemma LowerNonLetter(c: char, d: char)
    requires !('a' <= d <= 'z') && !('A' <= d <= 'Z')
    ensures Lower(c) == d <==> c == d
  {
    if 'A' <= c <= 'Z' {
      assert 'a' as int <= c as int + 32 <= 'z' as int;
      assert 'a' <= Lower(c) <= 'z';
    }
  }

  /** `String.prototype.trimStart`. */
  function TrimStart(s: string): (r: string)
    ensures |r| <= |s| && r == s[|s| - |r|..]
    ensures r != [] ==> !IsSpace(r[0])
    ensures forall k :: 0 <= k < |s| - |r| ==> IsSpace(s[k])
  {
    if s != [] && IsSpace(s[0]) then
      var r := TrimStart(s[1..]);
      assert s[1..][|s| - 1 - |r|..] == s[|s| - |r|..];
      assert forall k :: 1 <= k < |s| - |r| ==> s[k] == s[1..][k - 1];
      r
    else s
  }

  /** `String.prototype.trimEnd`. */
  function TrimEnd(s: string): (r: string)
    ensures |r| <= |s| && r == s[..|r|]
    ensures r != [] ==> !IsSpace(r[|r| - 1])
    ensures forall k :: |r| <= k < |s| ==> IsSpace(s[k])
  {
    if s != [] && IsSpace(s[|s| - 1]) then TrimEnd(s[..|s| - 1]) else s
  }

  /** `String.prototype.trim`. */
  function Trim(s: string): (r: string)
    ensures |r| <= |s|
    ensures r != [] ==> !IsSpace(r[0]) && !IsSpace(r[|r| - 1])
  {
    TrimEnd(TrimStart(s))
  }

  /** Every character is whitespace (the empty string included). */
  predicate AllSpace(s: string) {
    forall k :: 0 <= k < |s| ==> IsSpace(s[k])
  }

  /** No character is whitespace. */
  predicate NoSpace(s: string) {
    forall k :: 0 <= k < |s| ==> !IsSpace(s[k])
  }

  /** The two halves of a concatenation. */
  lemma ConcatSlices(a: string, b: string)
    ensures (a + b)[..|a|] == a && (a + b)[|a|..] == b && (a + b)[|a|..|a + b|] == b
  {
  }

  /** The characters of `a + b` past `a` are those of `b`. */
  lemma SpacesAfter(a: string, b: string)
    ensures AllSpace(b) ==> forall k :: |a| <= k < |a + b| ==> IsSpace((a + b)[k])
    ensures NoSpace(b) ==> forall k :: |a| <= k < |a + b| ==> !IsSpace((a + b)[k])
  {
    assert forall k :: |a| <= k < |a + b| ==> (a + b)[k] == b[k - |a|];
  }

  /** The characters of `a + b` before `|a|` are those of `a`. */
  lemma SpacesBefore(a: string, b: string)
    ensures AllSpace(a) ==> forall k :: 0 <= k < |a| ==> IsSpace((a + b)[k])
    ensures NoSpace(a) ==> forall k :: 0 <= k < |a| ==> !IsSpace((a + b)[k])
  {
    assert forall k :: 0 <= k < |a| ==> (a + b)[k] == a[k];
  }

  /** `trimStart` removes exactly the leading whitespace in front of a text that does
      not start with whitespace. */
  lemma TrimStartOf(ws: string, t: string)
    requires AllSpace(ws) && t != [] && !IsSpace(t[0])
    ensures TrimStart(ws + t) == t
  {
    var s := ws + t;
    var r := TrimStart(s);
    assert s[|ws|] == t[0];
    assert |s| - |r| == |ws|;
    assert s[|ws|..] == t;
  }

  /** `trimEnd` removes exactly the trailing whitespace after a text that does not end
      with whitespace. */
  lemma TrimEndOf(t: string, ws: string)
    requires AllSpace(ws) && t != [] && !IsSpace(t[|t| - 1])
    ensures TrimEnd(t + ws) == t
  {
    var s := t + ws;
    var r := TrimEnd(s);
    assert s[|t| - 1] == t[|t| - 1];
    assert |r| == |t|;
    assert s[..|t|] == t;
  }

  /** `trim` of a text wrapped in whitespace is the text, when the text neither starts
      nor ends with whitespace. */
  lemma TrimOf(ws1: string, t: string, ws2: string)
    requires AllSpace(ws1) && AllSpace(ws2)
    requires t != [] && !IsSpace(t[0]) && !IsSpace(t[|t| - 1])
    ensures Trim(ws1 + t + ws2) == t
  {
    assert ws1 + t + ws2 == ws1 + (t + ws2);
    TrimStartOf(ws1, t + ws2);
    TrimEndOf(t, ws2);
  }

  /** A text without whitespace at either end, followed by one space, trims back to
      the text. */
  lemma TrimSpaceAfter(t: string)
    requires t != [] && !IsSpace(t[0]) && !IsSpace(t[|t| - 1])
    ensures Trim(t + " " + []) == t
  {
    TrimOf("", t, " ");
    assert "" + t + " " == t + " " + [];
  }

  lemma TrimUntouched(s: string)
    requires s != [] ==> !IsSpace(s[0]) && !IsSpace(s[|s| - 1])
    ensures Trim(s) == s
  {
  }

  /** `s.split(sep)` for a one-character separator: the pieces between separators,
      empty pieces included, and always at least one piece. */
  function Split(s: string, sep: char): (r: seq<string>)
    ensures |r| >= 1
    ensures sep !in s ==> r == [s]
  {
    if s == [] then [""]
    else if s[0] == sep then [""] + Split(s[1..], sep)
    else
      var rest := Split(s[1..], sep);
      assert [s[0]] + s[1..] == s;
      [[s[0]] + rest[0]] + rest[1..]
  }

  /** `parts.join(sep)`. */
  function Join(parts: seq<string>, sep: string): string
  {
    if |parts| == 0 then ""
    else if |parts| == 1 then parts[0]
    else parts[0] + sep + Join(parts[1..], sep)
  }

  /** Two parts joined are the first, the separator and the second. */
  lemma JoinTwo(a: string, b: string, sep: string)
    ensures Join([a, b], sep) == a + sep + b
  {
    assert [a, b][1..] == [b];
  }

  /** A sequence of two parts joined is the first, the separator and the second. */
  lemma JoinOfTwo(parts: seq<string>, sep: string)
    requires |parts| == 2
    ensures Join(parts, sep) == parts[0] + sep + parts[1]
  {
    assert parts[1..][0] == parts[1];
  }

  /** Splitting and re-joining on the same separator gives the string back. */
  lemma {:induction false} JoinSplit(s: string, sep: char)
    ensures Join(Split(s, sep), [sep]) == s
  {
    if s == [] {
    } else if s[0] == sep {
      var rest := Split(s[1..], sep);
      JoinSplit(s[1..], sep);
      assert Split(s, sep) == [""] + rest;
      assert ([""] + rest)[1..] == rest;
    } else {
      var rest := Split(s[1..], sep);
      JoinSplit(s[1..], sep);
      var r := [[s[0]] + rest[0]] + rest[1..];
      assert Split(s, sep) == r;
      if |rest| == 1 {
        assert r == [[s[0]] + rest[0]];
      } else {
        assert r[1..] == rest[1..];
        assert Join(rest, [sep]) == rest[0] + [sep] + Join(rest[1..], [sep]);
      }
    }
  }

  /** The pieces of a split never contain the separator. */
  lemma {:induction false} SplitPiecesFree(s: string, sep: char)
    ensures forall k :: 0 <= k < |Split(s, sep)| ==> sep !in Split(s, sep)[k]
  {
    if s == [] {
    } else if s[0] == sep {
      SplitPiecesFree(s[1..], sep);
    } else {
      SplitPiecesFree(s[1..], sep);
      var rest := Split(s[1..], sep);
      assert s[0] != sep && sep !in rest[0];
      assert sep !in [s[0]] + rest[0];
    }
  }

  /** There is more than one piece exactly when the separator occurs. */
  lemma {:induction false} SplitCount(s: string, sep: char)
    ensures |Split(s, sep)| >= 2 <==> sep in s
  {
    if s != [] {
      SplitCount(s[1..], sep);
      assert sep in s <==> s[0] == sep || sep in s[1..];
    }
  }

  /** A string free of the separator is one piece. */
  lemma {:induction false} SplitFree(s: string, sep: char)
    requires sep !in s
    ensures Split(s, sep) == [s]
  {
    if s != [] {
      assert sep !in s[1..];
      SplitFree(s[1..], sep);
      assert [s[0]] + s[1..] == s;
    }
  }

  /** Splitting a separator-free piece followed by the separator peels that piece off. */
  lemma {:induction false} SplitCons(a: string, sep: char, b: string)
    requires sep !in a
    ensures Split(a + [sep] + b, sep) == [a] + Split(b, sep)
  {
    if a == [] {
      assert a + [sep] + b == [sep] + b;
      assert ([sep] + b)[1..] == b;
    } else {
      var s := a + [sep] + b;
      assert s[0] == a[0] && s[1..] == a[1..] + [sep] + b;
      SplitCons(a[1..], sep, b);
      assert [a[0]] + a[1..] == a;
    }
  }

  /** Joining separator-free pieces and splitting again gives the pieces back. */
  lemma {:induction false} SplitJoin(parts: seq<string>, sep: char)
    requires |parts| >= 1
    requires forall k :: 0 <= k < |parts| ==> sep !in parts[k]
    ensures Split(Join(parts, [sep]), sep) == parts
  {
    if |parts| == 1 {
      SplitFree(parts[0], sep);
    } else {
      SplitJoin(parts[1..], sep);
      SplitCons(parts[0], sep, Join(parts[1..], [sep]));
      assert [parts[0]] + parts[1..] == parts;
    }
  }

  /** Joining at least two pieces ends with the separator and the last piece. */
  lemma {:induction false} JoinSnoc(parts: seq<string>, sep: string)
    requires |parts| >= 2
    ensures Join(parts, sep) == Join(parts[..|parts| - 1], sep) + sep + parts[|parts| - 1]
  {
    if |parts| > 2 {
      JoinSnoc(parts[1..], sep);
      assert parts[1..][..|parts| - 2] == parts[..|parts| - 1][1..];
    }
  }

  /** `GetSubstitution` for a string pattern (which has no capture groups): in the
      replacement, `$$` stands for `$`, `$&` for the matched text, `` $` `` for the text
      before it and `$'` for the text after it; every other character, `$` included,
      stands for itself. */
  function Substitute(t: string, matched: string, before: string, after: string): string
    decreases |t|
  {
    if |t| == 0 then ""
    else if t[0] == '$' && |t| >= 2 && t[1] == '$' then "$" + Substitute(t[2..], matched, before, after)
    else if t[0] == '$' && |t| >= 2 && t[1] == '&' then matched + Substitute(t[2..], matched, before, after)
    else if t[0] == '$' && |t| >= 2 && t[1] == '`' then before + Substitute(t[2..], matched, before, after)
    else if t[0] == '$' && |t| >= 2 && t[1] == '\'' then after + Substitute(t[2..], matched, before, after)
    else [t[0]] + Substitute(t[1..], matched, before, after)
  }

  /** A replacement without `$` is inserted literally. */
  lemma {:induction false} SubstituteLiteral(t: string, matched: string, before: string, after: string)
    requires '$' !in t
    ensures Substitute(t, matched, before, after) == t
  {
    if |t| > 0 {
      assert '$' !in t[1..];
      SubstituteLiteral(t[1..], matched, before, after);
      assert [t[0]] + t[1..] == t;
    }
  }

  /** `s.replace(p, rep)` with a string pattern: only the first occurrence of `p` is
      replaced, by `rep` after `$`-expansion; without an occurrence `s` is returned. */
  function ReplaceFirst(s: string, p: string, rep: string): string
  {
    match IndexOfFrom(s, p, 0)
    case None => s
    case Some(k) => s[..k] + Substitute(rep, p, s[..k], s[k + |p|..]) + s[k + |p|..]
  }

  /** A `$`-free replacement splices in literally at the first occurrence. */
  lemma ReplaceFirstAt(s: string, p: string, rep: string, k: nat)
    requires StartsAt(s, k, p)
    requires forall j :: 0 <= j < k ==> !StartsAt(s, j, p)
    requires '$' !in rep
    ensures ReplaceFirst(s, p, rep) == s[..k] + rep + s[k + |p|..]
  {
    var r := IndexOfFrom(s, p, 0);
    assert r == Some(k);
    SubstituteLiteral(rep, p, s[..k], s[k + |p|..]);
  }

  /** A suffix that occurs nowhere earlier is the one a `$`-free replacement hits. */
  lemma ReplaceFirstSuffix(s: string, p: string, rep: string)
    requires |p| <= |s| && s[|s| - |p|..] == p
    requires forall j :: 0 <= j < |s| - |p| ==> !StartsAt(s, j, p)
    requires '$' !in rep
    ensures ReplaceFirst(s, p, rep) == s[..|s| - |p|] + rep
  {
    var k := |s| - |p|;
    assert s[k..k + |p|] == p;
    ReplaceFirstAt(s, p, rep, k);
    assert s[k + |p|..] == [];
  }

  /** Without an occurrence of the pattern, `replace` changes nothing. */
  lemma ReplaceFirstAbsent(s: string, p: string, rep: string)
    requires !Contains(s, p)
    ensures ReplaceFirst(s, p, rep) == s
  {
  }

  /** Replacing the first occurrence of a `$`-free string by itself changes nothing. */
  lemma ReplaceFirstSelf(s: string, p: string)
    requires '$' !in p
    ensures ReplaceFirst(s, p, p) == s
  {
    match IndexOfFrom(s, p, 0)
    case None =>
    case Some(k) =>
      SubstituteLiteral(p, p, s[..k], s[k + |p|..]);
      assert s[k..k + |p|] == p;
      assert s[..k] + s[k..k + |p|] + s[k + |p|..] == s;
  }
}
