/**
 * `urlize`: `"./" + quote(path.as_posix(), safe="/._-()")`. `quote` encodes
 * the string as UTF-8 and percent-encodes (section 2.1 of RFC 3986, upper-case
 * hexadecimal) every byte outside the unreserved set of section 2.3 (ASCII
 * letters, digits, "-", ".", "_", "~") and the extra safe characters "/", "(",
 * ")".
 */
module UrlEncoding {
  import opened JsonValues
  import opened PyPaths

  type Byte = x: int | 0 <= x < 256

  /** The UTF-8 encoding of one code point. */
  function Utf8(c: char): (bs: seq<Byte>)
    ensures 1 <= |bs| <= 4
    ensures |bs| == 1 <==> c as int < 0x80
    ensures forall i :: 1 <= i < |bs| ==> 0x80 <= bs[i] < 0xC0
  {
    var n := c as int;
    if n < 0x80 then [n]
    else if n < 0x800 then [0xC0 + n / 64, 0x80 + n % 64]
    else if n < 0x10000 then [0xE0 + n / 4096, 0x80 + (n / 64) % 64, 0x80 + n % 64]
    else [0xF0 + n / 262144, 0x80 + (n / 4096) % 64, 0x80 + (n / 64) % 64, 0x80 + n % 64]
  }

  /** `s.encode("utf-8")`. */
  function Utf8Encode(s: string): seq<Byte> {
    if s == [] then [] else Utf8(s[0]) + Utf8Encode(s[1..])
  }

  /** The bytes `quote` leaves as they are. */
  predicate Kept(b: Byte) {
    ('A' as int <= b <= 'Z' as int) || ('a' as int <= b <= 'z' as int) || ('0' as int <= b <= '9' as int)
    || b == '_' as int || b == '.' as int || b == '-' as int || b == '~' as int
    || b == '/' as int || b == '(' as int || b == ')' as int
  }

  const HexDigits: string := "0123456789ABCDEF"

  function QuoteByte(b: Byte): string {
    if Kept(b) then [b as char] else ['%', HexDigits[b / 16], HexDigits[b % 16]]
  }

  function QuoteBytes(bs: seq<Byte>): string {
    if bs == [] then "" else QuoteByte(bs[0]) + QuoteBytes(bs[1..])
  }

  /** `quote(s, safe="/._-()")`. */
  function Quote(s: string): string {
    QuoteBytes(Utf8Encode(s))
  }

  /** `urlize(path)`. */
  function Urlize(p: Path): string {
    "./" + Quote(AsPosix(p))
  }

  // ---------------------------------------------------------------------------
  // Decoders, used as the reference the encoders are checked against.

  function Prepend<T>(x: T, rest: Option<seq<T>>): Option<seq<T>> {
    if rest.Some? then Some([x] + rest.value) else None
  }

  /** The value of a hexadecimal digit in either case. */
  function HexValue(c: char): Option<int> {
    if '0' <= c <= '9' then Some(c as int - '0' as int)
    else if 'A' <= c <= 'F' then Some(c as int - 'A' as int + 10)
    else if 'a' <= c <= 'f' then Some(c as int - 'a' as int + 10)
    else None
  }

  /**
   * Strict percent-decoding: "%" must be followed by two hexadecimal digits,
   * and every other character must be ASCII.
   */
  function PercentDecode(t: string): Option<seq<Byte>> {
    if t == [] then Some([])
    else if t[0] == '%' then
      if |t| >= 3 && HexValue(t[1]).Some? && HexValue(t[2]).Some? then
        var h := HexValue(t[1]).value;
        var l := HexValue(t[2]).value;
        if 0 <= h < 16 && 0 <= l < 16 then Prepend(16 * h + l, PercentDecode(t[3..])) else None
      else None
    else if t[0] as int < 0x80 then Prepend(t[0] as int, PercentDecode(t[1..]))
    else None
  }

  predicate IsContinuation(b: Byte) {
    0x80 <= b < 0xC0
  }

  function CodePoint(v: int): Option<char> {
    if 0 <= v < 0xD800 || 0xE000 <= v < 0x110000 then Some(v as char) else None
  }

  /** A UTF-8 decoder that checks lead and continuation bytes and the range of the code point. */
  function Utf8Decode(bs: seq<Byte>): Option<string> {
    if bs == [] then Some([])
    else
      var b0 := bs[0] as int;
      if b0 < 0x80 then Prepend(b0 as char, Utf8Decode(bs[1..]))
      else if 0xC0 <= b0 < 0xE0 && |bs| >= 2 && IsContinuation(bs[1]) then
        var c := CodePoint((b0 - 0xC0) * 64 + (bs[1] as int - 0x80));
        if c.Some? then Prepend(c.value, Utf8Decode(bs[2..])) else None
      else if 0xE0 <= b0 < 0xF0 && |bs| >= 3 && IsContinuation(bs[1]) && IsContinuation(bs[2]) then
        var c := CodePoint((b0 - 0xE0) * 4096 + (bs[1] as int - 0x80) * 64 + (bs[2] as int - 0x80));
        if c.Some? then Prepend(c.value, Utf8Decode(bs[3..])) else None
      else if 0xF0 <= b0 < 0xF8 && |bs| >= 4 && IsContinuation(bs[1]) && IsContinuation(bs[2]) && IsContinuation(bs[3]) then
        var c := CodePoint((b0 - 0xF0) * 262144 + (bs[1] as int - 0x80) * 4096 + (bs[2] as int - 0x80) * 64 + (bs[3] as int - 0x80));
        if c.Some? then Prepend(c.value, Utf8Decode(bs[4..])) else None
      else None
  }

  // ---------------------------------------------------------------------------
  // Properties.

  lemma Digits3(n: int)
    requires 0 <= n
    ensures (n / 4096) * 4096 + ((n / 64) % 64) * 64 + n % 64 == n
  {
    assert n / 64 == (n / 4096) * 64 + (n / 64) % 64 by {
      assert n / 4096 == (n / 64) / 64;
    }
  }

  lemma Digits4(n: int)
    requires 0 <= n
    ensures (n / 262144) * 262144 + ((n / 4096) % 64) * 4096 + ((n / 64) % 64) * 64 + n % 64 == n
  {
    Digits3(n);
    assert n / 4096 == (n / 262144) * 64 + (n / 4096) % 64 by {
      assert n / 262144 == (n / 4096) / 64;
    }
  }

  /** Decoding the encoding of one character gives that character back, whatever follows. */
  lemma Utf8DecodeChar(c: char, rest: seq<Byte>)
    ensures Utf8Decode(Utf8(c) + rest) == Prepend(c, Utf8Decode(rest))
  {
    var n := c as int;
    var bs := Utf8(c) + rest;
    if n < 0x80 {
      assert bs[1..] == rest;
    } else if n < 0x800 {
      assert bs[2..] == rest;
      assert (bs[0] as int - 0xC0) * 64 + (bs[1] as int - 0x80) == n;
    } else if n < 0x10000 {
      assert bs[3..] == rest;
      Digits3(n);
      assert (bs[0] as int - 0xE0) * 4096 + (bs[1] as int - 0x80) * 64 + (bs[2] as int - 0x80) == n;
    } else {
      assert bs[4..] == rest;
      Digits4(n);
      assert (bs[0] as int - 0xF0) * 262144 + (bs[1] as int - 0x80) * 4096 + (bs[2] as int - 0x80) * 64 + (bs[3] as int - 0x80) == n;
    }
  }

  /** UTF-8 encoding loses nothing: decoding it gives the string back. */
  lemma {:induction false} Utf8RoundTrip(s: string)
    ensures Utf8Decode(Utf8Encode(s)) == Some(s)
  {
    if s != [] {
      Utf8RoundTrip(s[1..]);
      Utf8DecodeChar(s[0], Utf8Encode(s[1..]));
      assert s == [s[0]] + s[1..];
    }
  }

  lemma HexRoundTrip(d: int)
    requires 0 <= d < 16
    ensures HexValue(HexDigits[d]) == Some(d)
  {
  }

  /** Decoding the quoted form of one byte gives that byte back, whatever follows. */
  lemma DecodeQuoteByte(b: Byte, rest: string)
    ensures PercentDecode(QuoteByte(b) + rest) == Prepend(b, PercentDecode(rest))
  {
    if Kept(b) {
      DecodeKeptByte(b, rest);
    } else {
      DecodeEscapedByte(b, rest);
    }
  }

  lemma DecodeKeptByte(b: Byte, rest: string)
    requires Kept(b)
    ensures PercentDecode([b as char] + rest) == Prepend(b, PercentDecode(rest))
  {
    var t := [b as char] + rest;
    assert t[0] != '%';
    assert t[1..] == rest;
  }

  lemma DecodeEscapedByte(b: Byte, rest: string)
    ensures PercentDecode(['%', HexDigits[b / 16], HexDigits[b % 16]] + rest) == Prepend(b, PercentDecode(rest))
  {
    var t := ['%', HexDigits[b / 16], HexDigits[b % 16]] + rest;
    assert t[3..] == rest;
    HexRoundTrip(b / 16);
    HexRoundTrip(b % 16);
  }

  /** Percent-encoding loses nothing: decoding it gives the bytes back. */
  lemma {:induction false} PercentRoundTrip(bs: seq<Byte>)
    ensures PercentDecode(QuoteBytes(bs)) == Some(bs)
  {
    if bs != [] {
      PercentRoundTrip(bs[1..]);
      DecodeQuoteByte(bs[0], QuoteBytes(bs[1..]));
      assert bs == [bs[0]] + bs[1..];
    }
  }

  /** `quote` is reversed by percent-decoding followed by UTF-8 decoding. */
  lemma QuoteRoundTrip(s: string)
    ensures PercentDecode(Quote(s)).Some?
    ensures Utf8Decode(PercentDecode(Quote(s)).value) == Some(s)
  {
    PercentRoundTrip(Utf8Encode(s));
    Utf8RoundTrip(s);
  }

  /** A character `quote` may write: a kept ASCII character, "%", or an upper-case hexadecimal digit. */
  predicate QuoteOutputChar(c: char) {
    (c as int < 0x80 && Kept(c as int)) || c == '%' || c in HexDigits
  }

  lemma QuoteByteAlphabet(b: Byte)
    ensures forall i :: 0 <= i < |QuoteByte(b)| ==> QuoteOutputChar(QuoteByte(b)[i])
  {
    if !Kept(b) {
      assert HexDigits[b / 16] in HexDigits && HexDigits[b % 16] in HexDigits;
    }
  }

  lemma {:induction false} QuoteBytesAlphabet(bs: seq<Byte>)
    ensures forall i :: 0 <= i < |QuoteBytes(bs)| ==> QuoteOutputChar(QuoteBytes(bs)[i])
  {
    if bs != [] {
      QuoteBytesAlphabet(bs[1..]);
      QuoteByteAlphabet(bs[0]);
      var a := QuoteByte(bs[0]);
      var t := QuoteBytes(bs[1..]);
      var r := a + t;
      assert QuoteBytes(bs) == r;
      forall i | 0 <= i < |r| ensures QuoteOutputChar(r[i]) {
        if i < |a| {
          assert r[i] == a[i];
        } else {
          assert r[i] == t[i - |a|];
        }
      }
    }
  }

  /** `urlize` writes "./" followed by a percent-encoding of the UTF-8 of the posix path, in `quote`'s alphabet. */
  lemma UrlizeForm(p: Path)
    ensures |Urlize(p)| >= 2 && Urlize(p)[..2] == "./"
    ensures PercentDecode(Urlize(p)[2..]) == Some(Utf8Encode(AsPosix(p)))
    ensures forall i :: 2 <= i < |Urlize(p)| ==> QuoteOutputChar(Urlize(p)[i])
  {
    var q := Quote(AsPosix(p));
    assert Urlize(p)[2..] == q;
    PercentRoundTrip(Utf8Encode(AsPosix(p)));
    QuoteBytesAlphabet(Utf8Encode(AsPosix(p)));
  }

  /** An ASCII character `quote` keeps. */
  predicate KeptChar(c: char) {
    c as int < 0x80 && Kept(c as int)
  }

  /** A string made of kept characters is left as it is. */
  lemma {:induction false} QuoteKeepsKept(s: string)
    requires forall i :: 0 <= i < |s| ==> KeptChar(s[i])
    ensures Quote(s) == s
  {
    if s != [] {
      QuoteKeepsKept(s[1..]);
      assert Utf8Encode(s) == [s[0] as int] + Utf8Encode(s[1..]);
      assert s == [s[0]] + s[1..];
    }
  }

  /** A space becomes "%20"; "(" and ")" stay. */
  lemma SpaceBecomes20()
    ensures Quote(" ") == "%20"
    ensures Quote("(1)") == "(1)"
  {
    assert Utf8Encode(" ") == [32];
    assert QuoteBytes([32]) == "%20";
    QuoteKeepsKept("(1)");
  }
}
