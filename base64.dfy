/**
 * `btoa` and `atob`, the browser's base64 functions, with the alphabet of section 4
 * of RFC 4648. `btoa` reads its argument as bytes (one character per byte) and
 * throws when a character is above U+00FF; `atob` is the forgiving decoder of the
 * WHATWG Infra standard: it drops ASCII whitespace, accepts missing padding, and
 * fails on a length of 1 modulo 4 or on a character outside the alphabet.
 */
module Base64 {
  import opened Wrappers

  type Byte = b: int | 0 <= b < 256
  type SixBit = v: int | 0 <= v < 64

  /** The character of the base64 alphabet for a 6-bit value. */
  function CharOf(v: SixBit): char {
    if v < 26 then (65 + v) as char
    else if v < 52 then (97 + v - 26) as char
    else if v < 62 then (48 + v - 52) as char
    else if v == 62 then '+'
    else '/'
  }

  /** The 6-bit value of an alphabet character; `None` for any other character. */
  function ValueOf(c: char): (r: Option<SixBit>)
    ensures r.Some? ==> CharOf(r.value) == c
  {
    if 'A' <= c <= 'Z' then Some(c as int - 65)
    else if 'a' <= c <= 'z' then Some(c as int - 97 + 26)
    else if '0' <= c <= '9' then Some(c as int - 48 + 52)
    else if c == '+' then Some(62)
    else if c == '/' then Some(63)
    else None
  }

  lemma ValueOfCharOf(v: SixBit)
    ensures ValueOf(CharOf(v)) == Some(v)
  {
  }

  /** The 6-bit groups of a byte string, without padding: every three bytes give four
      groups, a trailing pair gives three and a trailing byte gives two, the missing
      low bits being zero. */
  function SixBitsOf(bs: seq<Byte>): (r: seq<SixBit>)
    ensures |r| == |bs| / 3 * 4 + (if |bs| % 3 == 0 then 0 else |bs| % 3 + 1)
    decreases |bs|
  {
    if |bs| >= 3 then
      [bs[0] / 4, bs[0] % 4 * 16 + bs[1] / 16, bs[1] % 16 * 4 + bs[2] / 64, bs[2] % 64] + SixBitsOf(bs[3..])
    else if |bs| == 2 then [bs[0] / 4, bs[0] % 4 * 16 + bs[1] / 16, bs[1] % 16 * 4]
    else if |bs| == 1 then [bs[0] / 4, bs[0] % 4 * 16]
    else []
  }

  /** The bytes carried by a run of 6-bit groups; leftover low bits of a short final
      group are discarded, as the forgiving decoder does. */
  function BytesOf(vs: seq<SixBit>): seq<Byte>
    decreases |vs|
  {
    if |vs| >= 4 then
      [HighByte(vs[0], vs[1]), MiddleByte(vs[1], vs[2]), LowByte(vs[2], vs[3])] + BytesOf(vs[4..])
    else if |vs| == 3 then [HighByte(vs[0], vs[1]), MiddleByte(vs[1], vs[2])]
    else if |vs| == 2 then [HighByte(vs[0], vs[1])]
    else []
  }

  /** The byte made of all six bits of `a` and the top two of `b`. */
  function HighByte(a: SixBit, b: SixBit): Byte {
    assert b / 16 < 4;
    a * 4 + b / 16
  }

  /** The byte made of the low four bits of `b` and the top four of `c`. */
  function MiddleByte(b: SixBit, c: SixBit): Byte {
    assert b % 16 * 16 <= 240 && c / 4 < 16;
    b % 16 * 16 + c / 4
  }

  /** The byte made of the low two bits of `c` and all six bits of `d`. */
  function LowByte(c: SixBit, d: SixBit): Byte {
    assert c % 4 * 64 <= 192;
    c % 4 * 64 + d
  }

  function Alphabet(vs: seq<SixBit>): (r: string)
    ensures |r| == |vs|
  {
    seq(|vs|, k requires 0 <= k < |vs| => CharOf(vs[k]))
  }

  /** The values of a string of alphabet characters, or `None` if any character is
      outside the alphabet. */
  function ValuesOf(u: string): (r: Option<seq<SixBit>>)
    ensures r.Some? ==> |r.value| == |u|
  {
    if u == [] then Some([])
    else match ValueOf(u[0])
      case None => None
      case Some(v) =>
        match ValuesOf(u[1..])
        case None => None
        case Some(rest) => Some([v] + rest)
  }

  function Padding(n: nat): string {
    if n % 3 == 1 then "==" else if n % 3 == 2 then "=" else ""
  }

  /** Base64 of a byte string, padded with `=` to a multiple of four characters. */
  function Encode(bs: seq<Byte>): string {
    Alphabet(SixBitsOf(bs)) + Padding(|bs|)
  }

  predicate IsLatin1(s: string) {
    forall k :: 0 <= k < |s| ==> s[k] as int < 256
  }

  function BytesOfString(s: string): (r: seq<Byte>)
    requires IsLatin1(s)
    ensures |r| == |s|
  {
    seq(|s|, k requires 0 <= k < |s| => s[k] as int)
  }

  function StringOfBytes(bs: seq<Byte>): (r: string)
    ensures |r| == |bs| && IsLatin1(r)
  {
    seq(|bs|, k requires 0 <= k < |bs| => bs[k] as char)
  }

  /** `btoa(s)`: `None` stands for the InvalidCharacterError thrown on a character
      above U+00FF. */
  function Btoa(s: string): (r: Option<string>)
    ensures r.Some? <==> IsLatin1(s)
    ensures r.Some? ==> (r.value == [] <==> s == [])
    ensures r.Some? ==> forall k :: 0 <= k < |r.value| ==> r.value[k] == '=' || ValueOf(r.value[k]).Some?
  {
    if IsLatin1(s) then
      EncodeChars(BytesOfString(s));
      Some(Encode(BytesOfString(s)))
    else None
  }

  /** ASCII whitespace as the Infra standard defines it. */
  predicate IsAsciiWhitespace(c: char) {
    c == '\t' || c == '\n' || c == '\U{C}' || c == '\r' || c == ' '
  }

  function RemoveAsciiWhitespace(s: string): (r: string)
    ensures (forall k :: 0 <= k < |s| ==> !IsAsciiWhitespace(s[k])) ==> r == s
  {
    if s == [] then []
    else if IsAsciiWhitespace(s[0]) then RemoveAsciiWhitespace(s[1..])
    else [s[0]] + RemoveAsciiWhitespace(s[1..])
  }

  /** Step 2 of the forgiving decoder: when the length is a multiple of four, one or
      two trailing `=` are removed. */
  function StripPadding(t: string): string {
    if |t| % 4 == 0 && |t| >= 2 && t[|t| - 2..] == "==" then t[..|t| - 2]
    else if |t| % 4 == 0 && |t| >= 1 && t[|t| - 1] == '=' then t[..|t| - 1]
    else t
  }

  /** `atob(s)`: `None` stands for the InvalidCharacterError it throws; what it
      returns is a binary string, one character per decoded byte. */
  function Atob(s: string): (r: Option<string>)
    ensures r.Some? ==> IsLatin1(r.value)
  {
    var u := StripPadding(RemoveAsciiWhitespace(s));
    if |u| % 4 == 1 then None
    else match ValuesOf(u)
      case None => None
      case Some(vs) => Some(StringOfBytes(BytesOf(vs)))
  }

  lemma {:induction false} ValuesOfAlphabet(vs: seq<SixBit>)
    ensures ValuesOf(Alphabet(vs)) == Some(vs)
  {
    if vs != [] {
      ValuesOfAlphabet(vs[1..]);
      assert Alphabet(vs)[1..] == Alphabet(vs[1..]);
      ValueOfCharOf(vs[0]);
      assert [vs[0]] + vs[1..] == vs;
    }
  }

  lemma TripleRoundTrip(a: Byte, b: Byte, c: Byte)
    ensures HighByte(a / 4, a % 4 * 16 + b / 16) == a
    ensures MiddleByte(a % 4 * 16 + b / 16, b % 16 * 4 + c / 64) == b
    ensures LowByte(b % 16 * 4 + c / 64, c % 64) == c
  {
  }

  lemma {:induction false} BytesOfSixBitsOf(bs: seq<Byte>)
    ensures BytesOf(SixBitsOf(bs)) == bs
    decreases |bs|
  {
    if |bs| >= 3 {
      BytesOfSixBitsOf(bs[3..]);
      assert bs == [bs[0], bs[1], bs[2]] + bs[3..];
      TripleDecoded(bs[0], bs[1], bs[2], bs[3..]);
    } else if |bs| == 2 {
      assert bs == [bs[0], bs[1]];
      PairDecoded(bs[0], bs[1]);
    } else if |bs| == 1 {
      assert bs == [bs[0]];
      SingleDecoded(bs[0]);
    }
  }

  /** A whole group of three bytes decodes back, given that the rest does. */
  lemma TripleDecoded(a: Byte, b: Byte, c: Byte, rest: seq<Byte>)
    requires BytesOf(SixBitsOf(rest)) == rest
    ensures BytesOf(SixBitsOf([a, b, c] + rest)) == [a, b, c] + rest
  {
    var bs := [a, b, c] + rest;
    assert bs[3..] == rest;
    var vs := SixBitsOf(bs);
    assert vs[4..] == SixBitsOf(rest);
    TripleRoundTrip(a, b, c);
  }

  /** A final pair of bytes decodes back. */
  lemma PairDecoded(a: Byte, b: Byte)
    ensures BytesOf(SixBitsOf([a, b])) == [a, b]
  {
    var vs := SixBitsOf([a, b]);
    assert vs == [a / 4, a % 4 * 16 + b / 16, b % 16 * 4];
    assert HighByte(a / 4, a % 4 * 16 + b / 16) == a;
    assert MiddleByte(a % 4 * 16 + b / 16, b % 16 * 4) == b;
  }

  /** A final single byte decodes back. */
  lemma SingleDecoded(a: Byte)
    ensures BytesOf(SixBitsOf([a])) == [a]
  {
    var vs := SixBitsOf([a]);
    assert vs == [a / 4, a % 4 * 16];
    assert HighByte(a / 4, a % 4 * 16) == a;
  }

  /** Padding that brings an `=`-free string to a multiple of four is stripped again. */
  lemma StripPaddingOf(e: string, n: nat)
    requires (|e| + |Padding(n)|) % 4 == 0
    requires e != [] ==> e[|e| - 1] != '='
    requires n % 3 != 0 ==> e != []
    ensures StripPadding(e + Padding(n)) == e
  {
    var t := e + Padding(n);
    if n % 3 == 1 {
      assert t[|t| - 2..] == "==";
      assert t[..|t| - 2] == e;
    } else if n % 3 == 2 {
      assert t[|t| - 2] == e[|e| - 1];
      assert t[|t| - 1] == '=';
      assert t[..|t| - 1] == e;
    } else {
      assert t == e;
    }
  }

  lemma CharOfNotPad(v: SixBit)
    ensures CharOf(v) != '='
  {
  }

  lemma EncodedLength(n: nat)
    ensures (n / 3 * 4 + (if n % 3 == 0 then 0 else n % 3 + 1) + |Padding(n)|) % 4 == 0
  {
    assert (n / 3 * 4) % 4 == 0;
  }

  /** The padding added by `Encode` is exactly what the decoder strips. */
  lemma StripPaddingOfEncode(bs: seq<Byte>)
    ensures StripPadding(Encode(bs)) == Alphabet(SixBitsOf(bs))
  {
    var vs := SixBitsOf(bs);
    var e := Alphabet(vs);
    EncodedLength(|bs|);
    if |e| > 0 {
      CharOfNotPad(vs[|e| - 1]);
    }
    StripPaddingOf(e, |bs|);
  }

  /** Decoding what `Encode` produced gives the bytes back. */
  lemma EncodeRoundTrip(bs: seq<Byte>)
    ensures Atob(Encode(bs)) == Some(StringOfBytes(bs))
  {
    var t := Encode(bs);
    var vs := SixBitsOf(bs);
    EncodeHasNoWhitespace(bs);
    assert RemoveAsciiWhitespace(t) == t;
    StripPaddingOfEncode(bs);
    var u := StripPadding(RemoveAsciiWhitespace(t));
    assert u == Alphabet(vs);
    UnpaddedLength(|bs|);
    ValuesOfAlphabet(vs);
    BytesOfSixBitsOf(bs);
  }

  lemma UnpaddedLength(n: nat)
    ensures (n / 3 * 4 + (if n % 3 == 0 then 0 else n % 3 + 1)) % 4 != 1
  {
    var q := n / 3;
    assert (q * 4) % 4 == 0;
  }

  lemma EncodeHasNoWhitespace(bs: seq<Byte>)
    ensures forall k :: 0 <= k < |Encode(bs)| ==> !IsAsciiWhitespace(Encode(bs)[k])
  {
    var t := Encode(bs);
    forall k | 0 <= k < |t| ensures !IsAsciiWhitespace(t[k]) {
      if k < |SixBitsOf(bs)| {
        assert t[k] == CharOf(SixBitsOf(bs)[k]);
      }
    }
  }

  /** `atob(btoa(s)) === s` whenever `btoa` accepts `s`, and `btoa` rejects exactly
      the strings with a character above U+00FF. */
  lemma BtoaRoundTrip(s: string)
    ensures Btoa(s).Some? <==> IsLatin1(s)
    ensures Btoa(s).Some? ==> Atob(Btoa(s).value) == Some(s)
  {
    if IsLatin1(s) {
      EncodeRoundTrip(BytesOfString(s));
      assert StringOfBytes(BytesOfString(s)) == s;
    }
  }

  /** Base64 text is made of alphabet characters and `=` only, and is empty only for
      empty input. */
  lemma EncodeChars(bs: seq<Byte>)
    ensures forall k :: 0 <= k < |Encode(bs)| ==> Encode(bs)[k] == '=' || ValueOf(Encode(bs)[k]).Some?
    ensures |Encode(bs)| == 0 <==> |bs| == 0
  {
    var t := Encode(bs);
    forall k | 0 <= k < |t| ensures t[k] == '=' || ValueOf(t[k]).Some? {
      if k < |SixBitsOf(bs)| {
        assert t[k] == CharOf(SixBitsOf(bs)[k]);
        ValueOfCharOf(SixBitsOf(bs)[k]);
      }
    }
  }

  /** Base64 text uses only the alphabet and `=`, so it never carries a `$`. */
  lemma EncodeAlphabet(bs: seq<Byte>)
    ensures forall k :: 0 <= k < |Encode(bs)| ==> Encode(bs)[k] != '$'
  {
    var t := Encode(bs);
    forall k | 0 <= k < |t| ensures t[k] != '$' {
      if k < |SixBitsOf(bs)| {
        assert t[k] == CharOf(SixBitsOf(bs)[k]);
      }
    }
  }
}
