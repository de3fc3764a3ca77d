/**
 * Python's `urllib.parse.quote_plus(s)` with the default empty safe set,
 * and `unquote_plus` to undo it. The string is UTF-8 encoded; every byte
 * that is an unreserved character of section 2.3 of RFC 3986 (ASCII
 * letters, digits and `_.-~`) stays as it is, a space becomes `+` as in
 * `application/x-www-form-urlencoded`, and every other byte becomes `%XY`
 * with upper-case hexadecimal digits, as section 2.1 of RFC 3986 describes.
 */
module UrlQuote {
  import opened Wrappers
  import opened Utf8

  predicate IsAsciiLetterOrDigit(c: char)
  {
    ('A' <= c <= 'Z') || ('a' <= c <= 'z') || ('0' <= c <= '9')
  }

  /** RFC 3986's unreserved characters: Python's always-safe set. */
  predicate IsUnreserved(c: char)
  {
    IsAsciiLetterOrDigit(c) || c == '_' || c == '.' || c == '-' || c == '~'
  }

  /** The characters `quote_plus` can produce. */
  predicate IsQuotedChar(c: char)
  {
    IsUnreserved(c) || c == '%' || c == '+'
  }

  /** An upper-case hexadecimal digit, as Python's `%02X` writes it. */
  function HexDigit(d: nat): (c: char)
    requires d < 16
    ensures IsHexDigit(c) && HexValue(c) == d
  {
    if d < 10 then ('0' as int + d) as char else ('A' as int + d - 10) as char
  }

  predicate IsHexDigit(c: char)
  {
    ('0' <= c <= '9') || ('A' <= c <= 'F') || ('a' <= c <= 'f')
  }

  /** The value of a hexadecimal digit, either case. */
  function HexValue(c: char): (v: nat)
    requires IsHexDigit(c)
    ensures v < 16
  {
    if '0' <= c <= '9' then c as int - '0' as int
    else if 'A' <= c <= 'F' then c as int - 'A' as int + 10
    else c as int - 'a' as int + 10
  }

  /** The encoding of one byte. */
  function QuoteByte(b: byte): string
  {
    if b == 0x20 then "+"
    else if IsUnreserved(b as char) then [b as char]
    else ['%', HexDigit(b / 16), HexDigit(b % 16)]
  }

  function QuoteBytes(bs: seq<byte>): string
  {
    if |bs| == 0 then "" else QuoteByte(bs[0]) + QuoteBytes(bs[1..])
  }

  /** `urllib.parse.quote_plus(s)`. */
  function QuotePlus(s: string): string
  {
    QuoteBytes(Utf8.Encode(s))
  }

  /**
   * The bytes `unquote_plus(q)` decodes: `+` is a space, `%` followed by two
   * hexadecimal digits (either case) is that byte, and any other character,
   * a `%` without two hexadecimal digits included, stands for its own UTF-8
   * bytes.
   */
  function UnquotePlusBytes(q: string): seq<byte>
  {
    if |q| == 0 then []
    else if q[0] == '+' then [0x20] + UnquotePlusBytes(q[1..])
    else if q[0] == '%' && |q| >= 3 && IsHexDigit(q[1]) && IsHexDigit(q[2]) then
      [HexValue(q[1]) * 16 + HexValue(q[2])] + UnquotePlusBytes(q[3..])
    else Utf8.EncodeChar(q[0]) + UnquotePlusBytes(q[1..])
  }

  /**
   * `urllib.parse.unquote_plus(q)`; `None` where the decoded bytes are not
   * UTF-8 (Python substitutes U+FFFD there).
   */
  function UnquotePlus(q: string): Option<string>
  {
    Utf8.Decode(UnquotePlusBytes(q))
  }

  lemma QuoteByteAlphabet(b: byte)
    ensures |QuoteByte(b)| >= 1
    ensures forall i :: 0 <= i < |QuoteByte(b)| ==> IsQuotedChar(QuoteByte(b)[i])
  {
  }

  lemma {:induction false} QuoteBytesAlphabet(bs: seq<byte>)
    ensures forall i :: 0 <= i < |QuoteBytes(bs)| ==> IsQuotedChar(QuoteBytes(bs)[i])
  {
    if |bs| > 0 {
      QuoteByteAlphabet(bs[0]);
      QuoteBytesAlphabet(bs[1..]);
      var q, rest := QuoteByte(bs[0]), QuoteBytes(bs[1..]);
      assert QuoteBytes(bs) == q + rest;
      forall i | 0 <= i < |q + rest| ensures IsQuotedChar((q + rest)[i]) {
        if i >= |q| { assert (q + rest)[i] == rest[i - |q|]; }
      }
    }
  }

  /**
   * Every character of an encoded string is an ASCII letter or digit, one of
   * `_.-~`, `%` or `+`; in particular there is no `/`.
   */
  lemma QuotePlusAlphabet(s: string)
    ensures forall i :: 0 <= i < |QuotePlus(s)| ==> IsQuotedChar(QuotePlus(s)[i])
    ensures '/' !in QuotePlus(s)
  {
    QuoteBytesAlphabet(Utf8.Encode(s));
  }

  lemma UnquoteQuoteByte(b: byte, rest: string)
    ensures UnquotePlusBytes(QuoteByte(b) + rest) == [b] + UnquotePlusBytes(rest)
  {
    var q := QuoteByte(b) + rest;
    if b == 0x20 {
      assert q[1..] == rest;
    } else if IsUnreserved(b as char) {
      assert q[0] == b as char && q[1..] == rest;
      assert Utf8.EncodeChar(b as char) == [b];
    } else {
      var hi, lo := HexDigit(b / 16), HexDigit(b % 16);
      assert q == ['%', hi, lo] + rest;
      assert q[1] == hi && q[2] == lo && q[3..] == rest;
      assert HexValue(hi) * 16 + HexValue(lo) == b;
    }
  }

  lemma {:induction false} UnquoteQuoteBytes(bs: seq<byte>)
    ensures UnquotePlusBytes(QuoteBytes(bs)) == bs
  {
    if |bs| > 0 {
      UnquoteQuoteByte(bs[0], QuoteBytes(bs[1..]));
      UnquoteQuoteBytes(bs[1..]);
      assert [bs[0]] + bs[1..] == bs;
    }
  }

  /**
   * `unquote_plus(quote_plus(s)) == s` for every string: percent-decoding the
   * encoded string gives exactly the UTF-8 bytes of `s`, and those decode to
   * `s`.
   */
  lemma UnquoteQuotePlus(s: string)
    ensures UnquotePlusBytes(QuotePlus(s)) == Utf8.Encode(s)
    ensures UnquotePlus(QuotePlus(s)) == Some(s)
  {
    UnquoteQuoteBytes(Utf8.Encode(s));
    Utf8.DecodeEncode(s);
  }

  /** Different strings never encode alike. */
  lemma QuotePlusInjective(s: string, t: string)
    requires QuotePlus(s) == QuotePlus(t)
    ensures s == t
  {
    UnquoteQuotePlus(s);
    UnquoteQuotePlus(t);
  }

  /** A string of unreserved characters is its own encoding. */
  lemma {:induction false} QuotePlusUnreserved(s: string)
    requires forall i :: 0 <= i < |s| ==> IsUnreserved(s[i])
    ensures QuotePlus(s) == s
  {
    if |s| > 0 {
      QuotePlusUnreserved(s[1..]);
      assert Utf8.Encode(s) == [s[0] as int] + Utf8.Encode(s[1..]);
      assert [s[0]] + s[1..] == s;
    }
  }
}
