/** `urllib.parse.quote_plus(query)` with its default arguments (`safe=''`,
    UTF-8, strict errors): a space becomes `+`, the ASCII letters, digits and
    `_.-~` are kept, and every other character becomes `%XX` for each byte of
    its UTF-8 encoding, with upper-case hexadecimal digits. */
module Quote {
  import opened Wrappers

  newtype byte = x: int | 0 <= x < 256

  /** The UTF-8 encoding of one code point (section 3 of RFC 3629). */
  function Utf8(c: char): (r: seq<byte>)
    ensures 1 <= |r| <= 4
    ensures (c as int < 0x80) <==> |r| == 1
    ensures c as int < 0x80 ==> r == [c as int as byte]
    ensures |r| == 2 ==> 0xC2 <= r[0] < 0xE0
    ensures |r| == 3 ==> 0xE0 <= r[0] < 0xF0
    ensures |r| == 4 ==> 0xF0 <= r[0] <= 0xF4
    ensures forall i :: 1 <= i < |r| ==> 0x80 <= r[i] < 0xC0
  {
    var n := c as int;
    if n < 0x80 then [n as byte]
    else if n < 0x800 then [(0xC0 + n / 0x40) as byte, (0x80 + n % 0x40) as byte]
    else if n < 0x1_0000 then
      [(0xE0 + n / 0x1000) as byte, (0x80 + n / 0x40 % 0x40) as byte, (0x80 + n % 0x40) as byte]
    else
      [(0xF0 + n / 0x4_0000) as byte, (0x80 + n / 0x1000 % 0x40) as byte,
       (0x80 + n / 0x40 % 0x40) as byte, (0x80 + n % 0x40) as byte]
  }

  /** The code point of one encoded character: the payload bits of the lead
      byte followed by six bits from each continuation byte. */
  function Utf8Value(bs: seq<byte>): int
    requires 1 <= |bs| <= 4
  {
    if |bs| == 1 then bs[0] as int
    else if |bs| == 2 then (bs[0] as int - 0xC0) * 0x40 + (bs[1] as int - 0x80)
    else if |bs| == 3 then
      (bs[0] as int - 0xE0) * 0x1000 + (bs[1] as int - 0x80) * 0x40 + (bs[2] as int - 0x80)
    else
      (bs[0] as int - 0xF0) * 0x4_0000 + (bs[1] as int - 0x80) * 0x1000
      + (bs[2] as int - 0x80) * 0x40 + (bs[3] as int - 0x80)
  }

  /** The encoding of a character decodes back to it, so distinct characters
      have distinct encodings. */
  lemma Utf8Decodes(c: char)
    ensures Utf8Value(Utf8(c)) == c as int
  {
    var n := c as int;
    assert n == n / 0x40 * 0x40 + n % 0x40;
    assert n / 0x40 == n / 0x1000 * 0x40 + n / 0x40 % 0x40;
    assert n / 0x1000 == n / 0x4_0000 * 0x40 + n / 0x1000 % 0x40;
  }

  /** `s.encode('utf-8')`: one to four bytes per character, and ASCII text
      byte for byte. */
  function Utf8String(s: string): (r: seq<byte>)
    ensures |s| <= |r| <= 4 * |s|
    ensures (forall i :: 0 <= i < |s| ==> s[i] as int < 0x80) ==>
      |r| == |s| && forall i :: 0 <= i < |s| ==> r[i] == s[i] as int as byte
  {
    if s == [] then []
    else
      var r := Utf8(s[0]) + Utf8String(s[1..]);
      assert forall i :: 1 <= i < |s| ==> s[i] == s[1..][i - 1];
      r
  }

  /** The characters `quote` never escapes. */
  predicate IsUnreserved(c: char) {
    || ('A' <= c <= 'Z')
    || ('a' <= c <= 'z')
    || ('0' <= c <= '9')
    || c == '_' || c == '.' || c == '-' || c == '~'
  }

  predicate IsHexDigit(c: char) {
    ('0' <= c <= '9') || ('A' <= c <= 'F')
  }

  /** The characters that can appear in the output of QuotePlus: none of
      them ends the query parameter or the URL (no `&`, `#`, `=` or space). */
  predicate IsQuoted(c: char) {
    IsUnreserved(c) || c == '+' || c == '%'
  }

  function HexDigit(n: int): (c: char)
    requires 0 <= n < 16
    ensures IsHexDigit(c)
  {
    if n < 10 then ('0' as int + n) as char else ('A' as int + n - 10) as char
  }

  function HexValue(c: char): (n: int)
    requires IsHexDigit(c)
    ensures 0 <= n < 16
    ensures HexDigit(n) == c
  {
    if c <= '9' then c as int - '0' as int else c as int - 'A' as int + 10
  }

  lemma HexValueOfDigit(n: int)
    requires 0 <= n < 16
    ensures HexValue(HexDigit(n)) == n
  {
  }

  /** `%XX` for one byte. */
  function Escape(b: byte): (r: string)
    ensures |r| == 3 && r[0] == '%' && IsHexDigit(r[1]) && IsHexDigit(r[2])
  {
    ['%', HexDigit(b as int / 16), HexDigit(b as int % 16)]
  }

  function EscapeAll(bs: seq<byte>): string {
    if bs == [] then [] else Escape(bs[0]) + EscapeAll(bs[1..])
  }

  function QuoteChar(c: char): string {
    if c == ' ' then "+"
    else if IsUnreserved(c) then [c]
    else EscapeAll(Utf8(c))
  }

  /** `quote_plus(s)`; its output consists of URL-safe characters only. */
  function QuotePlus(s: string): (r: string)
    ensures forall i :: 0 <= i < |r| ==> IsQuoted(r[i])
    ensures |r| >= |s|
  {
    if s == [] then []
    else
      var head := QuoteChar(s[0]);
      assert forall i :: 0 <= i < |head| ==> IsQuoted(head[i]) by {
        EscapeAllQuoted(Utf8(s[0]));
      }
      head + QuotePlus(s[1..])
  }

  lemma {:induction false} EscapeAllQuoted(bs: seq<byte>)
    ensures |EscapeAll(bs)| == 3 * |bs|
    ensures forall i :: 0 <= i < |EscapeAll(bs)| ==> IsQuoted(EscapeAll(bs)[i])
  {
    if bs != [] {
      EscapeAllQuoted(bs[1..]);
    }
  }

  /** `unquote_to_bytes(s.replace('+', ' '))` on the characters QuotePlus
      produces: `+` is a space and `%XX` is a byte; anything else is refused. */
  function Unquote(s: string): Option<seq<byte>> {
    if s == [] then Some([])
    else if s[0] == '+' then Prepend([0x20], Unquote(s[1..]))
    else if s[0] == '%' then
      if |s| >= 3 && IsHexDigit(s[1]) && IsHexDigit(s[2]) then
        Prepend([(16 * HexValue(s[1]) + HexValue(s[2])) as byte], Unquote(s[3..]))
      else None
    else if IsUnreserved(s[0]) then Prepend([s[0] as int as byte], Unquote(s[1..]))
    else None
  }

  function Prepend(bs: seq<byte>, rest: Option<seq<byte>>): Option<seq<byte>> {
    match rest
    case None => None
    case Some(tail) => Some(bs + tail)
  }

  /** `%XX` decodes back to the byte it was made from. */
  lemma UnquoteEscape(b: byte, rest: string)
    ensures Unquote(Escape(b) + rest) == Prepend([b], Unquote(rest))
  {
    var s := Escape(b) + rest;
    HexValueOfDigit(b as int / 16);
    HexValueOfDigit(b as int % 16);
    assert s[3..] == rest;
  }

  lemma PrependPrepend(a: seq<byte>, b: seq<byte>, rest: Option<seq<byte>>)
    ensures Prepend(a, Prepend(b, rest)) == Prepend(a + b, rest)
  {
    match rest {
      case None =>
      case Some(t) => assert a + (b + t) == (a + b) + t;
    }
  }

  lemma {:induction false} UnquoteEscapeAll(bs: seq<byte>, rest: string)
    ensures Unquote(EscapeAll(bs) + rest) == Prepend(bs, Unquote(rest))
  {
    if bs == [] {
      assert EscapeAll(bs) + rest == rest;
      match Unquote(rest) {
        case None =>
        case Some(t) => assert [] + t == t;
      }
    } else {
      var tail := EscapeAll(bs[1..]) + rest;
      assert EscapeAll(bs) + rest == Escape(bs[0]) + tail;
      UnquoteEscape(bs[0], tail);
      UnquoteEscapeAll(bs[1..], rest);
      PrependPrepend([bs[0]], bs[1..], Unquote(rest));
      assert [bs[0]] + bs[1..] == bs;
    }
  }

  lemma UnquoteQuoteChar(c: char, rest: string)
    ensures Unquote(QuoteChar(c) + rest) == Prepend(Utf8(c), Unquote(rest))
  {
    if c == ' ' {
      assert (QuoteChar(c) + rest)[1..] == rest;
    } else if IsUnreserved(c) {
      assert (QuoteChar(c) + rest)[1..] == rest;
    } else {
      UnquoteEscapeAll(Utf8(c), rest);
    }
  }

  /** Decoding the quoted query gives back exactly the UTF-8 bytes of the
      query: the search engine receives the text that was heard. */
  lemma {:induction false} UnquoteQuotePlus(s: string)
    ensures Unquote(QuotePlus(s)) == Some(Utf8String(s))
  {
    if s != [] {
      UnquoteQuotePlus(s[1..]);
      UnquoteQuoteChar(s[0], QuotePlus(s[1..]));
    }
  }
}
