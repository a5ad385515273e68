/** Percent-encoding of object keys as Python's `urllib.parse.quote(key)`
    performs it with its default `safe='/'`: the unreserved characters of
    section 2.3 of RFC 3986 and `/` stay as they are, every other character
    is UTF-8 encoded and each byte written `%XY` with upper-case hex digits
    (section 2.1 of RFC 3986). */
module Percent {
  import opened Wrappers
  import opened Text

  type Byte = x: int | 0 <= x < 256

  /** Section 2.3 of RFC 3986: ALPHA / DIGIT / "-" / "." / "_" / "~". */
  predicate IsUnreserved(c: char) {
    IsAlnum(c) || c == '-' || c == '.' || c == '_' || c == '~'
  }

  /** Characters `quote` leaves alone with `safe='/'`. */
  predicate IsSafe(c: char) {
    IsUnreserved(c) || c == '/'
  }

  predicate AllSafe(s: string) {
    forall i :: 0 <= i < |s| ==> IsSafe(s[i])
  }

  /** The UTF-8 encoding of one Unicode scalar value. */
  function Utf8(c: char): (bs: seq<Byte>)
    ensures 1 <= |bs| <= 4
    ensures |bs| == 1 <==> c as int < 0x80
    ensures |bs| == 1 ==> bs[0] == c as int
  {
    var cp := c as int;
    if cp < 0x80 then [cp]
    else if cp < 0x800 then [0xC0 + cp / 64, 0x80 + cp % 64]
    else if cp < 0x10000 then [0xE0 + cp / 4096, 0x80 + (cp / 64) % 64, 0x80 + cp % 64]
    else [0xF0 + (cp / 262144) % 8, 0x80 + (cp / 4096) % 64, 0x80 + (cp / 64) % 64, 0x80 + cp % 64]
  }

  function Utf8String(s: string): seq<Byte> {
    if |s| == 0 then [] else Utf8(s[0]) + Utf8String(s[1..])
  }

  function HexDigit(d: nat): (c: char)
    requires d < 16
    ensures IsUnreserved(c)
  {
    if d < 10 then DigitChar(d) else ('A' as int + d - 10) as char
  }

  predicate IsHexDigit(c: char) {
    IsDigit(c) || 'A' <= c <= 'F'
  }

  function HexValue(c: char): (d: nat)
    requires IsHexDigit(c)
    ensures d < 16
  {
    if IsDigit(c) then DigitValue(c) else c as int - 'A' as int + 10
  }

  lemma HexRoundTrip(d: nat)
    requires d < 16
    ensures IsHexDigit(HexDigit(d)) && HexValue(HexDigit(d)) == d
  {
  }

  /** `%XY` for one byte. */
  function Escape(b: Byte): string {
    ['%', HexDigit(b / 16), HexDigit(b % 16)]
  }

  function EscapeAll(bs: seq<Byte>): string {
    if |bs| == 0 then [] else Escape(bs[0]) + EscapeAll(bs[1..])
  }

  function QuoteChar(c: char): string {
    if IsSafe(c) then [c] else EscapeAll(Utf8(c))
  }

  /** `urllib.parse.quote(s)` with the default `safe='/'`. */
  function Quote(s: string): (q: string)
    ensures |q| >= |s|
  {
    if |s| == 0 then [] else QuoteChar(s[0]) + Quote(s[1..])
  }

  /** Reads percent escapes back into bytes; a plain ASCII character stands
      for its own byte. Anything else is rejected. */
  function UnquoteBytes(s: string): Option<seq<Byte>>
    decreases |s|
  {
    if |s| == 0 then Some([])
    else if s[0] == '%' then
      if |s| >= 3 && IsHexDigit(s[1]) && IsHexDigit(s[2]) then
        match UnquoteBytes(s[3..])
        case None => None
        case Some(rest) => Some([HexValue(s[1]) * 16 + HexValue(s[2])] + rest)
      else None
    else if s[0] as int < 0x80 then
      match UnquoteBytes(s[1..])
      case None => None
      case Some(rest) => Some([s[0] as int] + rest)
    else None
  }

  lemma {:induction false} UnquoteEscapeAll(bs: seq<Byte>, rest: string, tail: seq<Byte>)
    requires UnquoteBytes(rest) == Some(tail)
    ensures UnquoteBytes(EscapeAll(bs) + rest) == Some(bs + tail)
    decreases |bs|
  {
    if |bs| > 0 {
      var b := bs[0];
      HexRoundTrip(b / 16);
      HexRoundTrip(b % 16);
      UnquoteEscapeAll(bs[1..], rest, tail);
      var s := EscapeAll(bs) + rest;
      assert s == Escape(b) + (EscapeAll(bs[1..]) + rest);
      assert s[3..] == EscapeAll(bs[1..]) + rest;
      assert s[0] == '%' && s[1] == HexDigit(b / 16) && s[2] == HexDigit(b % 16);
      assert HexValue(s[1]) * 16 + HexValue(s[2]) == b;
      assert UnquoteBytes(s) == Some([b] + (bs[1..] + tail));
      assert bs + tail == [b] + (bs[1..] + tail);
    } else {
      assert EscapeAll(bs) + rest == rest;
      assert bs + tail == tail;
    }
  }

  lemma UnquoteQuoteChar(c: char, rest: string, tail: seq<Byte>)
    requires UnquoteBytes(rest) == Some(tail)
    ensures UnquoteBytes(QuoteChar(c) + rest) == Some(Utf8(c) + tail)
  {
    if IsSafe(c) {
      assert (QuoteChar(c) + rest)[1..] == rest;
    } else {
      UnquoteEscapeAll(Utf8(c), rest, tail);
    }
  }

  /** Decoding the escapes of a quoted key gives back the key's UTF-8 bytes. */
  lemma {:induction false} UnquoteQuote(s: string)
    ensures UnquoteBytes(Quote(s)) == Some(Utf8String(s))
  {
    if |s| > 0 {
      UnquoteQuote(s[1..]);
      UnquoteQuoteChar(s[0], Quote(s[1..]), Utf8String(s[1..]));
    }
  }

  /** A key made only of unreserved characters and `/` is quoted verbatim. */
  lemma {:induction false} QuoteSafeIdentity(s: string)
    requires AllSafe(s)
    ensures Quote(s) == s
  {
    if |s| > 0 {
      QuoteSafeIdentity(s[1..]);
      assert s == [s[0]] + s[1..];
    }
  }

  lemma {:induction false} EscapeAllUrlSafe(bs: seq<Byte>)
    ensures forall i :: 0 <= i < |EscapeAll(bs)| ==> IsSafe(EscapeAll(bs)[i]) || EscapeAll(bs)[i] == '%'
  {
    if |bs| > 0 {
      EscapeAllUrlSafe(bs[1..]);
    }
  }

  /** Every character of a quoted key is unreserved, `/` or `%`. */
  lemma {:induction false} QuoteUrlSafe(s: string)
    ensures forall i :: 0 <= i < |Quote(s)| ==> IsSafe(Quote(s)[i]) || Quote(s)[i] == '%'
  {
    if |s| > 0 {
      QuoteUrlSafe(s[1..]);
      if !IsSafe(s[0]) {
        EscapeAllUrlSafe(Utf8(s[0]));
      }
    }
  }
}
