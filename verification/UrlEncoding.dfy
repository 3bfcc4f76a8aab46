/**
 urllib.parse.urlencode with its default quoting: UTF-8, percent-encoding (section 2.1 of RFC 3986) with
 `+` for a space, `=` inside a pair and `&` between pairs; and a decoder that inverts all of it.
 */
module UrlEncoding {
  type Byte = b: int | 0 <= b < 256

  // ---- UTF-8 -------------------------------------------------------------------------------------

  function Utf8(c: char): seq<Byte> {
    var n := c as int;
    if n < 0x80 then [n]
    else if n < 0x800 then [0xC0 + n / 64, 0x80 + n % 64]
    else if n < 0x10000 then [0xE0 + n / 4096, 0x80 + n / 64 % 64, 0x80 + n % 64]
    else [0xF0 + n / 262144, 0x80 + n / 4096 % 64, 0x80 + n / 64 % 64, 0x80 + n % 64]
  }

  function Utf8All(s: string): seq<Byte> {
    if s == [] then [] else Utf8(s[0]) + Utf8All(s[1..])
  }

  predicate IsScalar(n: int) {
    0 <= n < 0xD800 || 0xE000 <= n < 0x11_0000
  }

  /** The length of a character, told from its first byte. */
  function Width(first: Byte): nat {
    if first < 0x80 then 1 else if first < 0xE0 then 2 else if first < 0xF0 then 3 else 4
  }

  function Scalar(b: seq<int>): int
    requires 1 <= |b| <= 4
  {
    if |b| == 1 then b[0]
    else if |b| == 2 then (b[0] - 0xC0) * 64 + (b[1] - 0x80)
    else if |b| == 3 then (b[0] - 0xE0) * 4096 + (b[1] - 0x80) * 64 + (b[2] - 0x80)
    else (b[0] - 0xF0) * 262144 + (b[1] - 0x80) * 4096 + (b[2] - 0x80) * 64 + (b[3] - 0x80)
  }

  function Utf8Decode(b: seq<Byte>): string {
    if b == [] || |b| < Width(b[0]) then []
    else
      var w := Width(b[0]);
      var n := Scalar(b[..w]);
      (if IsScalar(n) then [n as char] else []) + Utf8Decode(b[w..])
  }

  lemma Utf8Scalar(c: char)
    ensures |Utf8(c)| == Width(Utf8(c)[0]) && Scalar(Utf8(c)) == c as int
  {
    var n := c as int;
    assert n / 4096 == n / 64 / 64 && n / 262144 == n / 4096 / 64;
  }

  lemma {:induction false} Utf8RoundTrip(s: string)
    ensures Utf8Decode(Utf8All(s)) == s
  {
    if s != [] {
      var b, first := Utf8All(s), Utf8(s[0]);
      Utf8Scalar(s[0]);
      assert b[..|first|] == first && b[|first|..] == Utf8All(s[1..]);
      Utf8RoundTrip(s[1..]);
    }
  }

  // ---- percent-encoding ----------------------------------------------------------------------------

  predicate Unreserved(b: Byte) {
    || 'A' as int <= b <= 'Z' as int || 'a' as int <= b <= 'z' as int || '0' as int <= b <= '9' as int
    || b == '_' as int || b == '.' as int || b == '-' as int || b == '~' as int
  }

  function HexDigit(n: int): char
    requires 0 <= n < 16
  {
    if n < 10 then ('0' as int + n) as char else ('A' as int + n - 10) as char
  }

  function HexValue(c: char): int {
    if '0' <= c <= '9' then c as int - '0' as int
    else if 'A' <= c <= 'F' then c as int - 'A' as int + 10
    else 0
  }

  function QuoteByte(b: Byte): string {
    if Unreserved(b) then [b as char]
    else if b == ' ' as int then "+"
    else ['%', HexDigit(b / 16), HexDigit(b % 16)]
  }

  function QuoteBytes(b: seq<Byte>): string {
    if b == [] then [] else QuoteByte(b[0]) + QuoteBytes(b[1..])
  }

  function UnquoteBytes(s: string): seq<Byte> {
    if s == [] then []
    else if s[0] == '%' && |s| >= 3 then [HexValue(s[1]) * 16 + HexValue(s[2])] + UnquoteBytes(s[3..])
    else if s[0] == '+' then [' ' as int] + UnquoteBytes(s[1..])
    else (if s[0] as int < 256 then [s[0] as int] else []) + UnquoteBytes(s[1..])
  }

  lemma QuotedByte(b: Byte, rest: string)
    ensures UnquoteBytes(QuoteByte(b) + rest) == [b] + UnquoteBytes(rest)
    ensures '&' !in QuoteByte(b) && '=' !in QuoteByte(b)
  {
    var q := QuoteByte(b);
    assert (q + rest)[|q|..] == rest;
  }

  lemma {:induction false} QuoteRoundTrip(b: seq<Byte>)
    ensures UnquoteBytes(QuoteBytes(b)) == b
    ensures '&' !in QuoteBytes(b) && '=' !in QuoteBytes(b)
  {
    if b != [] {
      QuoteRoundTrip(b[1..]);
      QuotedByte(b[0], QuoteBytes(b[1..]));
      hide QuoteByte, UnquoteBytes;
    }
  }

  /** quote_plus: the UTF-8 bytes of the text, percent-encoded. */
  function QuotePlus(s: string): string {
    QuoteBytes(Utf8All(s))
  }

  predicate IsPlain(c: char) {
    c == ' ' || (c as int < 128 && Unreserved(c as int))
  }

  lemma QuoteHead(c: char, rest: string)
    requires IsPlain(c)
    ensures QuotePlus([c] + rest) == [if c == ' ' then '+' else c] + QuotePlus(rest)
  {
    var s, b := [c] + rest, c as int;
    assert s[0] == c && s[1..] == rest && Utf8(c) == [b];
    hide QuoteByte, Utf8;
    assert Utf8All(s) == [b] + Utf8All(rest);
    assert ([b] + Utf8All(rest))[1..] == Utf8All(rest);
    PlainByte(c);
  }

  lemma PlainByte(c: char)
    requires IsPlain(c)
    ensures QuoteByte(c as int) == [if c == ' ' then '+' else c]
  {
  }

  /** Letters, digits and "_.-~" stand for themselves and a space becomes a plus. */
  lemma {:induction false} QuotePlusPlain(s: string)
    requires forall c | c in s :: IsPlain(c)
    ensures |QuotePlus(s)| == |s|
    ensures forall i | 0 <= i < |s| :: QuotePlus(s)[i] == if s[i] == ' ' then '+' else s[i]
  {
    if s != [] {
      assert s[0] in s && forall c | c in s[1..] :: c in s;
      hide IsPlain;
      QuotePlusPlain(s[1..]);
      QuoteHead(s[0], s[1..]);
      hide QuotePlus;
      assert s == [s[0]] + s[1..];
    }
  }

  function UnquotePlus(s: string): string {
    Utf8Decode(UnquoteBytes(s))
  }

  lemma QuotePlusRoundTrip(s: string)
    ensures UnquotePlus(QuotePlus(s)) == s
    ensures '&' !in QuotePlus(s) && '=' !in QuotePlus(s)
  {
    Utf8RoundTrip(s);
    QuoteRoundTrip(Utf8All(s));
  }

  // ---- pairs -----------------------------------------------------------------------------------------

  type Pair = (string, string)

  function Field(p: Pair): string {
    QuotePlus(p.0) + "=" + QuotePlus(p.1)
  }

  function UrlEncode(pairs: seq<Pair>): string {
    if pairs == [] then ""
    else if |pairs| == 1 then Field(pairs[0])
    else Field(pairs[0]) + "&" + UrlEncode(pairs[1..])
  }

  /** Where `c` first occurs, or the length. */
  function IndexOf(s: string, c: char): (i: nat)
    ensures i <= |s| && c !in s[..i] && (i < |s| ==> s[i] == c)
  {
    if s == [] || s[0] == c then 0
    else
      var i := IndexOf(s[1..], c);
      assert s[..i + 1] == [s[0]] + s[1..][..i];
      i + 1
  }

  function ParseField(s: string): Pair {
    var i := IndexOf(s, '=');
    (UnquotePlus(s[..i]), if i < |s| then UnquotePlus(s[i + 1..]) else "")
  }

  function ParseQuery(s: string): seq<Pair> {
    var i := IndexOf(s, '&');
    if i < |s| then [ParseField(s[..i])] + ParseQuery(s[i + 1..]) else [ParseField(s)]
  }

  /** The first `c` in a + c + b is the one after `a` when `a` has none. */
  lemma {:induction false} IndexOfJoint(a: string, c: char, b: string)
    requires c !in a
    ensures IndexOf(a + [c] + b, c) == |a|
  {
    var s := a + [c] + b;
    if a == [] {
      assert s[0] == c;
    } else {
      assert s[0] == a[0] && a[0] in a && s[1..] == a[1..] + [c] + b;
      IndexOfJoint(a[1..], c, b);
    }
  }

  lemma ParseFieldInverts(p: Pair)
    ensures ParseField(Field(p)) == p && '&' !in Field(p)
  {
    QuotePlusRoundTrip(p.0);
    QuotePlusRoundTrip(p.1);
    hide QuotePlus, UnquotePlus, IndexOf;
    var name, value, field := QuotePlus(p.0), QuotePlus(p.1), Field(p);
    IndexOfJoint(name, '=', value);
    assert field == name + ['='] + value;
    assert field[..|name|] == name && field[|name| + 1..] == value;
  }

  /** Decoding an encoded list of pairs gives the list back: the encoding loses and confuses nothing. */
  lemma {:induction false} ParseInverts(pairs: seq<Pair>)
    requires pairs != []
    ensures ParseQuery(UrlEncode(pairs)) == pairs
  {
    hide Field, ParseField, IndexOf;
    var field := Field(pairs[0]);
    ParseFieldInverts(pairs[0]);
    if |pairs| == 1 {
      assert IndexOf(field, '&') == |field|;
      assert pairs == [pairs[0]];
    } else {
      var rest := UrlEncode(pairs[1..]);
      ParseInverts(pairs[1..]);
      IndexOfJoint(field, '&', rest);
      var s := UrlEncode(pairs);
      assert s == field + ['&'] + rest;
      assert s[..|field|] == field && s[|field| + 1..] == rest;
      assert pairs == [pairs[0]] + pairs[1..];
    }
  }
}
