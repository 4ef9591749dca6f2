/** Percent-encoding as Python's `urllib.parse.quote` (with its default `safe="/"`)
    and `urllib.parse.unquote` (UTF-8, errors "replace") perform it:
    section 2.1 of RFC 3986 for the triplets, section 2.3 for the unreserved set. */
module UrlQuote {
  import opened Utf8

  predicate IsAsciiLetter(c: char) { ('A' <= c <= 'Z') || ('a' <= c <= 'z') }
  predicate IsAsciiDigit(c: char) { '0' <= c <= '9' }
  predicate IsAscii(c: char) { c as int < 0x80 }

  /** The unreserved characters of section 2.3 of RFC 3986. */
  predicate IsUnreserved(c: char)
  {
    IsAsciiLetter(c) || IsAsciiDigit(c) || c == '_' || c == '.' || c == '-' || c == '~'
  }

  /** What `quote` leaves alone: the unreserved set plus `/`. */
  predicate IsQuoteSafe(c: char)
  {
    IsUnreserved(c) || c == '/'
  }

  predicate IsSafeByte(b: byte)
  {
    b < 0x80 && IsQuoteSafe(b as int as char)
  }

  /** The upper-case hexadecimal digit for `k`. */
  function HexDigit(k: int): (c: char)
    requires 0 <= k < 16
    ensures IsAsciiDigit(c) || ('A' <= c <= 'F')
  {
    if k < 10 then ('0' as int + k) as char else ('A' as int + k - 10) as char
  }

  predicate IsHexDigit(c: char)
  {
    IsAsciiDigit(c) || ('A' <= c <= 'F') || ('a' <= c <= 'f')
  }

  /** The value of a hexadecimal digit of either case. */
  function HexValue(c: char): (v: int)
    requires IsHexDigit(c)
    ensures 0 <= v < 16
  {
    if IsAsciiDigit(c) then c as int - '0' as int
    else if 'A' <= c <= 'F' then c as int - 'A' as int + 10
    else c as int - 'a' as int + 10
  }

  /** A percent-encoded triplet for one byte: `%` and two upper-case hex digits. */
  function Triplet(b: byte): string
  {
    ['%', HexDigit(b as int / 16), HexDigit(b as int % 16)]
  }

  function QuoteByte(b: byte): string
  {
    if IsSafeByte(b) then [b as int as char] else Triplet(b)
  }

  /** `quote_from_bytes(bs, safe="/")` */
  function QuoteBytes(bs: seq<byte>): string
  {
    if bs == [] then [] else QuoteByte(bs[0]) + QuoteBytes(bs[1..])
  }

  /** `quote(s)`: encode to UTF-8, then percent-encode every byte outside the safe set. */
  function Quote(s: string): string
  {
    QuoteBytes(Encode(s))
  }

  /** Every byte as a triplet. */
  function Triplets(bs: seq<byte>): string
  {
    if bs == [] then [] else Triplet(bs[0]) + Triplets(bs[1..])
  }

  /** How `quote` treats one character: a safe one stays, any other becomes the
      triplets of all its UTF-8 bytes. */
  function QuoteChar(c: char): string
  {
    if IsQuoteSafe(c) then [c] else Triplets(EncodeChar(c))
  }

  function QuoteEach(s: string): string
  {
    if s == [] then [] else QuoteChar(s[0]) + QuoteEach(s[1..])
  }

  lemma {:induction false} QuoteBytesAppend(a: seq<byte>, b: seq<byte>)
    ensures QuoteBytes(a + b) == QuoteBytes(a) + QuoteBytes(b)
  {
    if a == [] {
      assert a + b == b;
    } else {
      assert (a + b)[0] == a[0] && (a + b)[1..] == a[1..] + b;
      QuoteBytesAppend(a[1..], b);
    }
  }

  lemma QuoteBytesOfChar(c: char)
    ensures QuoteBytes(EncodeChar(c)) == QuoteChar(c)
  {
    var e := EncodeChar(c);
    if IsAscii(c) {
      var b := c as int as byte;
      assert e == [b];
      assert b as int as char == c;
      assert QuoteBytes(e) == QuoteByte(b) + QuoteBytes([]);
      assert Triplets(e) == Triplet(b) + Triplets([]);
    } else {
      NonAsciiTriplets(e);
    }
  }

  lemma {:induction false} NonAsciiTriplets(bs: seq<byte>)
    requires forall k :: 0 <= k < |bs| ==> bs[k] >= 0x80
    ensures QuoteBytes(bs) == Triplets(bs)
  {
    if bs != [] {
      NonAsciiTriplets(bs[1..]);
    }
  }

  /** `quote` works character by character: safe characters are copied, every other
      character is replaced by the triplets of its UTF-8 bytes. */
  lemma {:induction false} QuoteIsPerChar(s: string)
    ensures Quote(s) == QuoteEach(s)
  {
    if s != [] {
      QuoteBytesAppend(EncodeChar(s[0]), Encode(s[1..]));
      QuoteBytesOfChar(s[0]);
      QuoteIsPerChar(s[1..]);
    }
  }

  /** The characters `quote` can produce. */
  predicate IsQuotedChar(c: char)
  {
    IsQuoteSafe(c) || c == '%' || IsAsciiDigit(c) || ('A' <= c <= 'F')
  }

  lemma {:induction false} QuoteBytesAlphabet(bs: seq<byte>)
    ensures forall i :: 0 <= i < |QuoteBytes(bs)| ==> IsQuotedChar(QuoteBytes(bs)[i])
  {
    if bs != [] {
      QuoteBytesAlphabet(bs[1..]);
      var h, t := QuoteByte(bs[0]), QuoteBytes(bs[1..]);
      assert QuoteBytes(bs) == h + t;
      forall i | 0 <= i < |h + t| ensures IsQuotedChar((h + t)[i]) {
        if i >= |h| { assert (h + t)[i] == t[i - |h|]; }
      }
    }
  }

  /** The encoded text holds only safe characters, `%` and upper-case hex digits:
      in particular no space, `#`, `&`, `?` or `;`, and nothing outside ASCII. */
  lemma QuoteAlphabet(s: string)
    ensures forall i :: 0 <= i < |Quote(s)| ==> IsQuotedChar(Quote(s)[i])
    ensures forall i :: 0 <= i < |Quote(s)| ==>
      IsAscii(Quote(s)[i]) && Quote(s)[i] !in " #&?;:"
  {
    QuoteBytesAlphabet(Encode(s));
  }

  lemma {:induction false} TripletsHaveNoSlash(bs: seq<byte>)
    ensures '/' !in Triplets(bs)
  {
    if bs != [] {
      TripletsHaveNoSlash(bs[1..]);
      var h := Triplet(bs[0]);
      assert '/' !in h;
    }
  }

  /** `quote` spares `/`, and produces one only from a `/`. */
  lemma {:induction false} SlashSurvivesQuote(s: string)
    ensures '/' in Quote(s) <==> '/' in s
  {
    QuoteIsPerChar(s);
    SlashInQuoteEach(s);
  }

  lemma {:induction false} SlashInQuoteEach(s: string)
    ensures '/' in QuoteEach(s) <==> '/' in s
  {
    if s != [] {
      SlashInQuoteEach(s[1..]);
      assert s == [s[0]] + s[1..];
      if !IsQuoteSafe(s[0]) {
        TripletsHaveNoSlash(EncodeChar(s[0]));
      }
      assert QuoteEach(s) == QuoteChar(s[0]) + QuoteEach(s[1..]);
    }
  }

  /** `quote` keeps a string of safe characters as it is. */
  lemma {:induction false} QuoteSafeUnchanged(s: string)
    requires forall i :: 0 <= i < |s| ==> IsQuoteSafe(s[i])
    ensures Quote(s) == s
  {
    QuoteIsPerChar(s);
    SafeEachUnchanged(s);
  }

  lemma {:induction false} SafeEachUnchanged(s: string)
    requires forall i :: 0 <= i < |s| ==> IsQuoteSafe(s[i])
    ensures QuoteEach(s) == s
  {
    if s != [] {
      SafeEachUnchanged(s[1..]);
    }
  }

  /** Without a `%` in its output, `quote` changed nothing. */
  lemma {:induction false} NoPercentMeansUnchanged(s: string)
    requires '%' !in QuoteEach(s)
    ensures QuoteEach(s) == s
  {
    if s != [] {
      var h := QuoteChar(s[0]);
      QuoteCharShape(s[0]);
      assert QuoteEach(s) == h + QuoteEach(s[1..]);
      assert QuoteEach(s)[0] == h[0];
      NoPercentMeansUnchanged(s[1..]);
    }
  }

  lemma QuoteCharShape(c: char)
    ensures QuoteChar(c) != [] && (IsQuoteSafe(c) || QuoteChar(c)[0] == '%')
  {
    if !IsQuoteSafe(c) {
      var e := EncodeChar(c);
      assert QuoteChar(c) == Triplet(e[0]) + Triplets(e[1..]);
    }
  }

  // ---------------------------------------------------------------- unquote

  /** `_unquote_impl` on the bytes of an ASCII run: a `%` followed by two hex
      digits becomes that byte; anything else, a lone `%` included, is copied. */
  function UnquoteToBytes(s: string): (bs: seq<byte>)
    requires forall i :: 0 <= i < |s| ==> IsAscii(s[i])
  {
    if s == [] then []
    else if s[0] == '%' && |s| >= 3 && IsHexDigit(s[1]) && IsHexDigit(s[2]) then
      [(HexValue(s[1]) * 16 + HexValue(s[2])) as byte] + UnquoteToBytes(s[3..])
    else
      assert IsAscii(s[0]);
      [s[0] as int as byte] + UnquoteToBytes(s[1..])
  }

  /** Length of the maximal run of ASCII characters that starts `s`. */
  function AsciiRunLength(s: string): (n: nat)
    requires s != [] && IsAscii(s[0])
    ensures 1 <= n <= |s|
    ensures forall i :: 0 <= i < n ==> IsAscii(s[i])
    ensures n < |s| ==> !IsAscii(s[n])
  {
    if |s| == 1 || !IsAscii(s[1]) then 1 else 1 + AsciiRunLength(s[1..])
  }

  /** `_generate_unquoted_parts`: each maximal ASCII run is unquoted to bytes and
      decoded as UTF-8 with replacement; other characters pass through. */
  function UnquoteParts(s: string): string
    decreases |s|
  {
    if s == [] then []
    else if IsAscii(s[0]) then
      var n := AsciiRunLength(s);
      Decode(UnquoteToBytes(s[..n])) + UnquoteParts(s[n..])
    else [s[0]] + UnquoteParts(s[1..])
  }

  /** `unquote(s)` */
  function Unquote(s: string): string
  {
    if '%' !in s then s else UnquoteParts(s)
  }

  lemma HexDigitValue(k: int)
    requires 0 <= k < 16
    ensures IsHexDigit(HexDigit(k)) && HexValue(HexDigit(k)) == k
  {
  }

  lemma {:induction false} UnquoteQuoteBytes(bs: seq<byte>)
    ensures forall i :: 0 <= i < |QuoteBytes(bs)| ==> IsAscii(QuoteBytes(bs)[i])
    ensures UnquoteToBytes(QuoteBytes(bs)) == bs
  {
    QuoteBytesAlphabet(bs);
    if bs != [] {
      var b := bs[0];
      var h, t := QuoteByte(b), QuoteBytes(bs[1..]);
      UnquoteQuoteBytes(bs[1..]);
      assert QuoteBytes(bs) == h + t;
      if IsSafeByte(b) {
        assert (h + t)[1..] == t;
      } else {
        HexDigitValue(b as int / 16);
        HexDigitValue(b as int % 16);
        assert (h + t)[3..] == t;
      }
    }
  }

  /** `unquote` undoes `quote`: decoding the encoded text gives the original text. */
  lemma UnquoteQuote(s: string)
    ensures Unquote(Quote(s)) == s
  {
    var q := Quote(s);
    QuoteAlphabet(s);
    if '%' !in q {
      QuoteIsPerChar(s);
      NoPercentMeansUnchanged(s);
    } else {
      UnquoteAsciiRun(q);
      UnquoteQuoteBytes(Encode(s));
      DecodeEncode(s);
    }
  }

  /** A non-empty all-ASCII string is one run. */
  lemma UnquoteAsciiRun(q: string)
    requires q != [] && forall i :: 0 <= i < |q| ==> IsAscii(q[i])
    ensures UnquoteParts(q) == Decode(UnquoteToBytes(q))
  {
    AsciiRunIsWhole(q);
    var n := |q|;
    assert q[..n] == q && q[n..] == [];
    var d := Decode(UnquoteToBytes(q));
    assert UnquoteParts(q) == d + UnquoteParts([]);
  }

  lemma AsciiRunIsWhole(q: string)
    requires q != [] && forall i :: 0 <= i < |q| ==> IsAscii(q[i])
    ensures AsciiRunLength(q) == |q|
  {
  }
}
