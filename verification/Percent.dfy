/** Percent-encoding of text (sections 2.1 and 2.3 of RFC 3986) over its UTF-8 bytes, and its inverse. */
module Percent {
  type Byte = n: nat | n < 256

  // ---------------------------------------------------------------- UTF-8

  function Utf8(c: char): (bs: seq<Byte>)
    ensures 1 <= |bs| <= 4
  {
    var n := c as int;
    if n < 0x80 then [n]
    else if n < 0x800 then [0xC0 + n / 64, 0x80 + n % 64]
    else if n < 0x10000 then [0xE0 + n / 4096, 0x80 + n / 64 % 64, 0x80 + n % 64]
    else [0xF0 + n / 262144, 0x80 + n / 4096 % 64, 0x80 + n / 64 % 64, 0x80 + n % 64]
  }

  function Utf8All(s: string): seq<Byte> {
    if s == "" then [] else Utf8(s[0]) + Utf8All(s[1..])
  }

  predicate Continues(b: Byte) {
    0x80 <= b < 0xC0
  }

  /** The six bits a continuation byte carries. */
  function Low(b: Byte): int {
    b as int - 0x80
  }

  /** The code point at the start of `bs` and the number of its bytes; none if the bytes are malformed. */
  function FirstPoint(bs: seq<Byte>): (r: (int, nat))
    requires bs != []
    ensures r.1 > 0 ==> r.1 <= |bs| && (0 <= r.0 < 0xD800 || 0xE000 <= r.0 < 0x110000)
  {
    var b: int := bs[0];
    if b < 0x80 then (b, 1)
    else if 0xC2 <= b < 0xE0 && |bs| >= 2 && Continues(bs[1]) then ((b - 0xC0) * 64 + Low(bs[1]), 2)
    else if 0xE0 <= b < 0xF0 && |bs| >= 3 && Continues(bs[1]) && Continues(bs[2]) then
      var n: int := (b - 0xE0) * 4096 + Low(bs[1]) * 64 + Low(bs[2]);
      if n < 0x800 || 0xD800 <= n < 0xE000 then (0, 0) else (n, 3)
    else if 0xF0 <= b < 0xF5 && |bs| >= 4 && Continues(bs[1]) && Continues(bs[2]) && Continues(bs[3]) then
      var n: int := (b - 0xF0) * 262144 + Low(bs[1]) * 4096 + Low(bs[2]) * 64 + Low(bs[3]);
      if n < 0x10000 || n >= 0x110000 then (0, 0) else (n, 4)
    else (0, 0)
  }

  /** Decoding; a byte that starts no character becomes a replacement character. */
  function Decode(bs: seq<Byte>): string
    decreases |bs|
  {
    if bs == [] then ""
    else
      var (n, k) := FirstPoint(bs);
      if k == 0 then ['\U{FFFD}'] + Decode(bs[1..]) else [n as char] + Decode(bs[k..])
  }

  lemma Digits(n: nat)
    ensures n / 64 / 64 == n / 4096 && n / 4096 / 64 == n / 262144
    ensures n == n / 64 * 64 + n % 64
    ensures n == n / 4096 * 4096 + n / 64 % 64 * 64 + n % 64
    ensures n == n / 262144 * 262144 + n / 4096 % 64 * 4096 + n / 64 % 64 * 64 + n % 64
  {
  }

  lemma FirstPointOf(c: char, rest: seq<Byte>)
    ensures FirstPoint(Utf8(c) + rest) == (c as int, |Utf8(c)|)
  {
    var n := c as int;
    var bs := Utf8(c) + rest;
    Digits(n);
    assert forall i :: 0 <= i < |Utf8(c)| ==> bs[i] == Utf8(c)[i];
  }

  lemma TwoBytes(a: int, x: int, n: int)
    requires n == a * 64 + x && 2 <= a < 32 && 0 <= x < 64
    ensures 0x80 <= n < 0x800 && n / 64 == a && n % 64 == x
  {
  }

  lemma ThreeBytes(a: int, x: int, y: int, n: int)
    requires n == a * 4096 + x * 64 + y && 0 <= a < 16 && 0 <= x < 64 && 0 <= y < 64
    ensures n / 4096 == a && n / 64 % 64 == x && n % 64 == y
  {
  }

  lemma FourBytes(a: int, x: int, y: int, z: int, n: int)
    requires n == a * 262144 + x * 4096 + y * 64 + z && 0 <= a < 8 && 0 <= x < 64 && 0 <= y < 64 && 0 <= z < 64
    ensures n / 262144 == a && n / 4096 % 64 == x && n / 64 % 64 == y && n % 64 == z
  {
    assert n / 64 == a * 4096 + x * 64 + y;
    ThreeBytes(a, x, y, n / 64);
    Digits(n);
  }

  /** A character is read exactly where its bytes stand: nothing else is accepted. */
  lemma OnlyUtf8(bs: seq<Byte>)
    requires bs != []
    ensures var (n, k) := FirstPoint(bs); k > 0 ==> Utf8(n as char) == bs[..k]
  {
    var (n, k) := FirstPoint(bs);
    var b: int := bs[0];
    if k == 2 {
      TwoBytes(b - 0xC0, Low(bs[1]), n);
    } else if k == 3 {
      ThreeBytes(b - 0xE0, Low(bs[1]), Low(bs[2]), n);
    } else if k == 4 {
      FourBytes(b - 0xF0, Low(bs[1]), Low(bs[2]), Low(bs[3]), n);
    }
  }

  lemma {:induction false} DecodeUtf8(s: string)
    ensures Decode(Utf8All(s)) == s
  {
    hide Utf8, FirstPoint;
    if s != "" {
      var rest := Utf8All(s[1..]);
      FirstPointOf(s[0], rest);
      assert (Utf8(s[0]) + rest)[|Utf8(s[0])|..] == rest;
      DecodeUtf8(s[1..]);
    }
  }

  // ---------------------------------------------------------------- percent-encoding

  /** Unreserved characters, and the slash where it is kept. */
  predicate Kept(b: Byte, slash: bool) {
    0x41 <= b <= 0x5A || 0x61 <= b <= 0x7A || 0x30 <= b <= 0x39 || b == 0x5F || b == 0x2E || b == 0x2D || b == 0x7E
        || (slash && b == 0x2F)
  }

  function Hex(d: nat): char
    requires d < 16
  {
    "0123456789ABCDEF"[d]
  }

  /** The value of a hexadecimal digit, or -1. */
  function HexValue(c: char): (d: int)
    ensures -1 <= d < 16
  {
    if '0' <= c <= '9' then c as int - '0' as int
    else if 'A' <= c <= 'F' then c as int - 'A' as int + 10
    else if 'a' <= c <= 'f' then c as int - 'a' as int + 10
    else -1
  }

  function QuoteByte(b: Byte, slash: bool): string {
    if Kept(b, slash) then [b as char] else ['%', Hex(b / 16), Hex(b % 16)]
  }

  function QuoteBytes(bs: seq<Byte>, slash: bool): string {
    if bs == [] then "" else QuoteByte(bs[0], slash) + QuoteBytes(bs[1..], slash)
  }

  function Quote(s: string, slash: bool): string {
    QuoteBytes(Utf8All(s), slash)
  }

  predicate Ascii(t: string) {
    forall i :: 0 <= i < |t| ==> t[i] < '\U{80}'
  }

  /** The bytes of an ASCII text with its escapes resolved; a percent sign without two digits stays. */
  function UnquoteBytes(t: string): seq<Byte>
    requires Ascii(t)
  {
    if t == "" then []
    else if t[0] == '%' && |t| >= 3 && HexValue(t[1]) >= 0 && HexValue(t[2]) >= 0 then
      [HexValue(t[1]) * 16 + HexValue(t[2])] + UnquoteBytes(t[3..])
    else [t[0] as int] + UnquoteBytes(t[1..])
  }

  function AsciiPrefix(t: string): (n: nat)
    ensures n <= |t| && Ascii(t[..n]) && (n < |t| ==> t[n] >= '\U{80}')
  {
    if t == "" || t[0] >= '\U{80}' then 0
    else
      var n := AsciiPrefix(t[1..]) + 1;
      assert t[..n] == [t[0]] + t[1..][..n - 1];
      n
  }

  /** Escapes are resolved in each stretch of ASCII; other characters stay. */
  function Unquote(t: string): string
    decreases |t|
  {
    var n := AsciiPrefix(t);
    Decode(UnquoteBytes(t[..n])) + (if n < |t| then [t[n]] + Unquote(t[n + 1..]) else "")
  }

  // ---------------------------------------------------------------- what the encoding guarantees

  lemma HexValueOf(d: nat)
    requires d < 16
    ensures HexValue(Hex(d)) == d && Hex(d) < '\U{80}' && Hex(d) != '%'
        && (('0' <= Hex(d) <= '9') || ('A' <= Hex(d) <= 'F'))
  {
  }

  lemma QuoteByteAscii(b: Byte, slash: bool, t: string)
    requires Ascii(t)
    ensures Ascii(QuoteByte(b, slash) + t) && UnquoteBytes(QuoteByte(b, slash) + t) == [b] + UnquoteBytes(t)
  {
    HexValueOf(b / 16);
    HexValueOf(b % 16);
    var q := QuoteByte(b, slash);
    assert Ascii(q);
    assert forall i :: 0 <= i < |q + t| ==> (q + t)[i] == if i < |q| then q[i] else t[i - |q|];
    assert (q + t)[|q|..] == t;
    hide Hex;
  }

  lemma {:induction false} UnquoteQuoteBytes(bs: seq<Byte>, slash: bool)
    ensures Ascii(QuoteBytes(bs, slash)) && UnquoteBytes(QuoteBytes(bs, slash)) == bs
  {
    hide QuoteByte;
    if bs != [] {
      UnquoteQuoteBytes(bs[1..], slash);
      QuoteByteAscii(bs[0], slash, QuoteBytes(bs[1..], slash));
    }
  }

  /** Decoding undoes encoding, for every text and either set of kept characters. */
  lemma UnquoteQuote(s: string, slash: bool)
    ensures Unquote(Quote(s, slash)) == s
  {
    hide Decode, UnquoteBytes, QuoteBytes, Utf8All;
    var t := Quote(s, slash);
    UnquoteQuoteBytes(Utf8All(s), slash);
    assert AsciiPrefix(t) == |t| && t[..|t|] == t;
    DecodeUtf8(s);
  }

  /** A character that an encoded text can have. */
  predicate Encoded(c: char, slash: bool) {
    'A' <= c <= 'Z' || 'a' <= c <= 'z' || '0' <= c <= '9' || c == '_' || c == '.' || c == '-' || c == '~' || c == '%'
        || (slash && c == '/')
  }

  lemma QuoteByteChars(b: Byte, slash: bool)
    ensures QuoteByte(b, slash) != "" && forall c :: c in QuoteByte(b, slash) ==> Encoded(c, slash)
  {
    HexValueOf(b / 16);
    HexValueOf(b % 16);
    hide Hex;
  }

  /** Only unreserved characters, percent signs and kept slashes appear: nothing a URI parser splits at. */
  lemma {:induction false} QuoteBytesChars(bs: seq<Byte>, slash: bool)
    ensures forall c :: c in QuoteBytes(bs, slash) ==> Encoded(c, slash)
    ensures bs != [] ==> QuoteBytes(bs, slash) != ""
  {
    hide QuoteByte, Encoded;
    if bs != [] {
      QuoteByteChars(bs[0], slash);
      QuoteBytesChars(bs[1..], slash);
    }
  }

  lemma {:induction false} Utf8Concat(s: string, t: string)
    ensures Utf8All(s + t) == Utf8All(s) + Utf8All(t)
  {
    hide Utf8;
    if s == "" {
      assert s + t == t;
    } else {
      assert (s + t)[1..] == s[1..] + t;
      Utf8Concat(s[1..], t);
    }
  }

  lemma {:induction false} QuoteBytesConcat(a: seq<Byte>, b: seq<Byte>, slash: bool)
    ensures QuoteBytes(a + b, slash) == QuoteBytes(a, slash) + QuoteBytes(b, slash)
  {
    hide QuoteByte;
    if a == [] {
      assert a + b == b;
    } else {
      assert (a + b)[1..] == a[1..] + b;
      QuoteBytesConcat(a[1..], b, slash);
    }
  }

  lemma QuoteConcat(s: string, t: string, slash: bool)
    ensures Quote(s + t, slash) == Quote(s, slash) + Quote(t, slash)
  {
    hide QuoteBytes, Utf8All;
    Utf8Concat(s, t);
    QuoteBytesConcat(Utf8All(s), Utf8All(t), slash);
  }

  /** A kept slash stands for itself. */
  lemma SlashKept(s: string)
    ensures "/" + Quote(s, true) == Quote("/" + s, true)
  {
    QuoteConcat("/", s, true);
    assert Utf8All("/") == [0x2F] by {
      assert "/"[1..] == "";
      assert Utf8All("") == [];
    }
    assert [0x2F as Byte][1..] == [];
    assert QuoteBytes([], true) == "";
    assert QuoteBytes([0x2F], true) == "/";
  }

  /** Exactly the unreserved characters stand for themselves, and the slash where it is kept; every other ASCII
      character is a percent sign and two upper-case hexadecimal digits. */
  lemma QuoteAscii(c: char, slash: bool)
    requires c < '\U{80}'
    ensures var plain := 'A' <= c <= 'Z' || 'a' <= c <= 'z' || '0' <= c <= '9' || c in "_.-~" || (slash && c == '/');
            Quote([c], slash) == if plain then [c]
                else ['%', "0123456789ABCDEF"[c as int / 16], "0123456789ABCDEF"[c as int % 16]]
  {
    var n: Byte := c as int;
    assert [c][1..] == "" && Utf8All("") == [] && Utf8All([c]) == [n];
    assert [n][1..] == [] && QuoteBytes([], slash) == "" && QuoteBytes([n], slash) == QuoteByte(n, slash);
    assert c in "_.-~" <==> c == '_' || c == '.' || c == '-' || c == '~';
  }

  /** The bytes of a character of two, of three and of four bytes. */
  lemma Utf8Samples()
    ensures Utf8('\U{E9}') == [0xC3, 0xA9] && Utf8('\U{20AC}') == [0xE2, 0x82, 0xAC]
    ensures Utf8('\U{1F600}') == [0xF0, 0x9F, 0x98, 0x80]
  {
  }

  /** Hexadecimal digits of either case are read; a percent sign without two of them stays. */
  lemma EscapesRead(t: string)
    requires Ascii(t)
    ensures Ascii("%2f" + t) && UnquoteBytes("%2f" + t) == [0x2F] + UnquoteBytes(t)
    ensures Ascii("%2F" + t) && UnquoteBytes("%2F" + t) == [0x2F] + UnquoteBytes(t)
    ensures Ascii("%g2" + t) && UnquoteBytes("%g2" + t) == [0x25] + UnquoteBytes("g2" + t)
  {
    assert ("%2f" + t)[3..] == t && ("%2F" + t)[3..] == t && ("%g2" + t)[1..] == "g2" + t;
  }

  /** The digits of either case. */
  lemma HexDigits(d: nat)
    requires d < 16
    ensures HexValue("0123456789abcdef"[d]) == d && HexValue("0123456789ABCDEF"[d]) == d
  {
  }
}
