/** `urllib.parse.urlencode` over an ordered dictionary of strings, as
    Python 3.7 and later compute it: every key and value goes through `quote_plus`
    (UTF-8, nothing but letters, digits and `_.-~` left as they are, a space
    written `+`, every other byte written `%XX` with upper-case hex digits),
    and the items are joined as `k=v` with `&`. A decoder is defined beside it
    and shown to undo the encoding. */
module Urlencoding {
  import opened Strings
  import opened OrderedDicts

  type Byte = b: int | 0 <= b < 256

  /** The characters `quote_plus` never escapes. */
  predicate AlwaysSafe(c: char) {
    ('a' <= c <= 'z') || ('A' <= c <= 'Z') || ('0' <= c <= '9') || c == '_' || c == '.' || c == '-' || c == '~'
  }

  /** The UTF-8 encoding of one character. */
  function Utf8Char(c: char): (bs: seq<Byte>)
    ensures 1 <= |bs| <= 4
  {
    var n := c as int;
    if n < 0x80 then [n]
    else if n < 0x800 then [0xC0 + n / 0x40, 0x80 + n % 0x40]
    else if n < 0x1_0000 then [0xE0 + n / 0x1000, 0x80 + n / 0x40 % 0x40, 0x80 + n % 0x40]
    else [0xF0 + n / 0x4_0000, 0x80 + n / 0x1000 % 0x40, 0x80 + n / 0x40 % 0x40, 0x80 + n % 0x40]
  }

  /** The UTF-8 encoding of a string. */
  function Utf8(s: string): seq<Byte>
    decreases |s|
  {
    if s == [] then [] else Utf8Char(s[0]) + Utf8(s[1..])
  }

  /** The upper-case hexadecimal digit for `d`. */
  function HexDigit(d: int): char
    requires 0 <= d < 16
  {
    if d < 10 then ('0' as int + d) as char else ('A' as int + d - 10) as char
  }

  /** The value of a hexadecimal digit of either case, or -1. */
  function HexValue(c: char): (d: int)
    ensures -1 <= d < 16
  {
    if '0' <= c <= '9' then c as int - '0' as int
    else if 'A' <= c <= 'F' then c as int - 'A' as int + 10
    else if 'a' <= c <= 'f' then c as int - 'a' as int + 10
    else -1
  }

  /** `%XX` for one byte. */
  function Percent(b: Byte): string {
    ['%', HexDigit(b / 16), HexDigit(b % 16)]
  }

  /** `%XX` for each byte in turn. */
  function PercentAll(bs: seq<Byte>): string
    decreases |bs|
  {
    if bs == [] then "" else Percent(bs[0]) + PercentAll(bs[1..])
  }

  /** `quote_plus` of one character. */
  function QuoteChar(c: char): (q: string)
    ensures q != ""
  {
    if AlwaysSafe(c) then [c]
    else if c == ' ' then "+"
    else PercentAll(Utf8Char(c))
  }

  /** `quote_plus(s)`; its output never holds the separators `&` and `=`. */
  function QuotePlus(s: string): (q: string)
    ensures '&' !in q && '=' !in q
    ensures q == "" <==> s == ""
    decreases |s|
  {
    if s == [] then ""
    else
      var head := QuoteChar(s[0]);
      assert '&' !in head && '=' !in head by {
        if !AlwaysSafe(s[0]) && s[0] != ' ' {
          PercentAllChars(Utf8Char(s[0]));
        }
      }
      head + QuotePlus(s[1..])
  }

  /** Escapes hold neither `&` nor `=`. */
  lemma {:induction false} PercentAllChars(bs: seq<Byte>)
    ensures '&' !in PercentAll(bs) && '=' !in PercentAll(bs)
    decreases |bs|
  {
    if bs != [] {
      PercentAllChars(bs[1..]);
    }
  }

  /** A string of safe characters is its own encoding. */
  lemma {:induction false} QuotePlusSafe(s: string)
    requires forall i :: 0 <= i < |s| ==> AlwaysSafe(s[i])
    ensures QuotePlus(s) == s
    decreases |s|
  {
    if s != [] {
      QuotePlusSafe(s[1..]);
      assert s == [s[0]] + s[1..];
    }
  }

  /** One dictionary item as `urlencode` writes it. */
  function EncodeItem(item: (string, string)): string {
    QuotePlus(item.0) + "=" + QuotePlus(item.1)
  }

  /** Each item encoded as `k=v`. */
  function EncodeItems(d: Entries<string>): (fields: seq<string>)
    ensures |fields| == |d|
    ensures forall i :: 0 <= i < |d| ==> fields[i] == EncodeItem(d[i])
    decreases |d|
  {
    if d == [] then [] else [EncodeItem(d[0])] + EncodeItems(d[1..])
  }

  /** `urlencode(d)` */
  function Urlencode(d: Entries<string>): string {
    Join(EncodeItems(d), '&')
  }

  // ---------------------------------------------------------------------
  // Decoding

  /** `%XX` escapes and `+` turned back into bytes; any other character
      stands for its own UTF-8 encoding. */
  function PercentDecode(s: string): seq<Byte>
    decreases |s|
  {
    if s == [] then []
    else if s[0] == '+' then [0x20] + PercentDecode(s[1..])
    else if s[0] == '%' && |s| >= 3 && HexValue(s[1]) >= 0 && HexValue(s[2]) >= 0 then
      [HexValue(s[1]) * 16 + HexValue(s[2])] + PercentDecode(s[3..])
    else Utf8Char(s[0]) + PercentDecode(s[1..])
  }

  /** The length of the UTF-8 sequence a lead byte announces, or 0. */
  function SequenceLength(lead: Byte): nat {
    if lead < 0x80 then 1
    else if 0xC0 <= lead < 0xE0 then 2
    else if 0xE0 <= lead < 0xF0 then 3
    else if 0xF0 <= lead < 0xF8 then 4
    else 0
  }

  /** A UTF-8 continuation byte, `10xxxxxx`. */
  predicate IsContinuation(b: Byte) {
    0x80 <= b < 0xC0
  }

  /** A Unicode scalar value: in range and not a surrogate. */
  predicate IsScalar(n: int) {
    (0 <= n < 0xD800) || (0xE000 <= n < 0x11_0000)
  }

  /** The code point a lead byte and its continuation bytes spell. */
  function CodePoint(bs: seq<Byte>): int
    requires 1 <= |bs| <= 4
  {
    var b: seq<int> := bs;
    if |b| == 1 then b[0]
    else if |b| == 2 then (b[0] - 0xC0) * 0x40 + (b[1] - 0x80)
    else if |b| == 3 then (b[0] - 0xE0) * 0x1000 + (b[1] - 0x80) * 0x40 + (b[2] - 0x80)
    else (b[0] - 0xF0) * 0x4_0000 + (b[1] - 0x80) * 0x1000 + (b[2] - 0x80) * 0x40 + (b[3] - 0x80)
  }

  /** A well-formed UTF-8 sequence of `n` bytes starts `bs`. */
  predicate ValidSequence(bs: seq<Byte>, n: nat) {
    1 <= n <= |bs| && n <= 4
    && (forall j :: 1 <= j < n ==> IsContinuation(bs[j]))
    && IsScalar(CodePoint(bs[..n]))
  }

  /** UTF-8 decoding; a byte that starts no well-formed sequence becomes
      U+FFFD. */
  function Utf8Decode(bs: seq<Byte>): string
    decreases |bs|
  {
    if bs == [] then ""
    else
      var n := SequenceLength(bs[0]);
      if ValidSequence(bs, n) then [CodePoint(bs[..n]) as char] + Utf8Decode(bs[n..])
      else "\U{FFFD}" + Utf8Decode(bs[1..])
  }

  /** `unquote_plus` */
  function UnquotePlus(s: string): string {
    Utf8Decode(PercentDecode(s))
  }

  /** The decoder that undoes `urlencode` (`parse_qsl` with
      `keep_blank_values=True` on its output): items split on `&`, each split
      on `=`, both halves unquoted. */
  function ParseQuery(q: string): Entries<string> {
    if q == "" then [] else ParseItems(Split(q, '&'))
  }

  /** Each `&`-separated field parsed as one item. */
  function ParseItems(fields: seq<string>): (d: Entries<string>)
    ensures |d| == |fields|
    decreases |fields|
  {
    if fields == [] then [] else [ParseItem(fields[0])] + ParseItems(fields[1..])
  }

  /** A field cut at its first `=`, the value running to the next `=` or to
      the end, and both decoded. */
  function ParseItem(field: string): (string, string) {
    var halves := Split(field, '=');
    (UnquotePlus(halves[0]), UnquotePlus(if |halves| > 1 then halves[1] else ""))
  }

  // ---------------------------------------------------------------------
  // Round trip

  /** A hex digit reads back as its value. */
  lemma HexRoundTrip(d: int)
    requires 0 <= d < 16
    ensures HexValue(HexDigit(d)) == d
  {
  }

  /** Each `%XX` decodes to its byte. */
  lemma PercentDecodesByte(b: Byte, rest: string)
    ensures PercentDecode(Percent(b) + rest) == [b] + PercentDecode(rest)
  {
    var s := Percent(b) + rest;
    HexRoundTrip(b / 16);
    HexRoundTrip(b % 16);
    assert s[0] == '%' && s[1] == HexDigit(b / 16) && s[2] == HexDigit(b % 16);
    assert s[3..] == rest;
  }

  /** Escaped bytes decode to the bytes, leaving what follows. */
  lemma {:induction false} PercentDecodesBytes(bs: seq<Byte>, rest: string)
    ensures PercentDecode(PercentAll(bs) + rest) == bs + PercentDecode(rest)
    decreases |bs|
  {
    if bs == [] {
      assert PercentAll(bs) + rest == rest;
    } else {
      var tail := PercentAll(bs[1..]) + rest;
      calc {
        PercentDecode(PercentAll(bs) + rest);
        { assert PercentAll(bs) + rest == Percent(bs[0]) + tail; }
        PercentDecode(Percent(bs[0]) + tail);
        { PercentDecodesByte(bs[0], tail); }
        [bs[0]] + PercentDecode(tail);
        { PercentDecodesBytes(bs[1..], rest); }
        [bs[0]] + (bs[1..] + PercentDecode(rest));
        { assert bs == [bs[0]] + bs[1..]; }
        bs + PercentDecode(rest);
      }
    }
  }

  /** The escapes of one character decode to its UTF-8 bytes. */
  lemma QuoteCharDecodes(c: char, rest: string)
    ensures PercentDecode(QuoteChar(c) + rest) == Utf8Char(c) + PercentDecode(rest)
  {
    if AlwaysSafe(c) || c == ' ' {
      assert (QuoteChar(c) + rest)[1..] == rest;
    } else {
      PercentDecodesBytes(Utf8Char(c), rest);
    }
  }

  /** The encoding of a string decodes to its UTF-8 bytes, leaving what follows. */
  lemma {:induction false} QuotePlusDecodes(s: string, rest: string)
    ensures PercentDecode(QuotePlus(s) + rest) == Utf8(s) + PercentDecode(rest)
    decreases |s|
  {
    if s == [] {
      assert QuotePlus(s) + rest == rest;
    } else {
      assert QuotePlus(s) + rest == QuoteChar(s[0]) + (QuotePlus(s[1..]) + rest);
      QuoteCharDecodes(s[0], QuotePlus(s[1..]) + rest);
      QuotePlusDecodes(s[1..], rest);
    }
  }

  /** The arithmetic behind two-, three- and four-byte sequences. */
  lemma TwoByteArithmetic(n: int)
    requires 0x80 <= n < 0x800
    ensures (n / 0x40) * 0x40 + n % 0x40 == n && 2 <= n / 0x40 < 0x20
  {
  }

  lemma ThreeByteArithmetic(n: int)
    requires 0x800 <= n < 0x1_0000
    ensures (n / 0x1000) * 0x1000 + (n / 0x40 % 0x40) * 0x40 + n % 0x40 == n
  {
    assert n / 0x40 == (n / 0x1000) * 0x40 + n / 0x40 % 0x40;
  }

  lemma FourByteArithmetic(n: int)
    requires 0x1_0000 <= n < 0x11_0000
    ensures (n / 0x4_0000) * 0x4_0000 + (n / 0x1000 % 0x40) * 0x1000 + (n / 0x40 % 0x40) * 0x40 + n % 0x40 == n
    ensures n / 0x4_0000 < 8
  {
    assert n / 0x1000 == (n / 0x4_0000) * 0x40 + n / 0x1000 % 0x40;
    assert n / 0x40 == (n / 0x1000) * 0x40 + n / 0x40 % 0x40;
  }

  /** The bytes of one character form a well-formed sequence of the length
      its lead byte announces, spelling the character's code point. */
  lemma Utf8CharShape(c: char)
    ensures SequenceLength(Utf8Char(c)[0]) == |Utf8Char(c)|
    ensures forall j :: 1 <= j < |Utf8Char(c)| ==> IsContinuation(Utf8Char(c)[j])
    ensures CodePoint(Utf8Char(c)) == c as int
  {
    var n := c as int;
    if 0x80 <= n < 0x800 {
      TwoByteArithmetic(n);
    } else if 0x800 <= n < 0x1_0000 {
      ThreeByteArithmetic(n);
    } else if 0x1_0000 <= n {
      FourByteArithmetic(n);
    }
  }

  /** Decoding the UTF-8 bytes of a character gives the character back. */
  lemma Utf8CharDecodes(c: char, rest: seq<Byte>)
    ensures Utf8Decode(Utf8Char(c) + rest) == [c] + Utf8Decode(rest)
  {
    var bs := Utf8Char(c);
    var s := bs + rest;
    var n := |bs|;
    Utf8CharShape(c);
    assert s[..n] == bs && s[n..] == rest && s[0] == bs[0];
    assert forall j :: 1 <= j < n ==> s[j] == bs[j];
    assert IsScalar(c as int);
    assert ValidSequence(s, n);
    assert (CodePoint(bs) as char) == c;
  }

  /** UTF-8 decoding undoes UTF-8 encoding. */
  lemma {:induction false} Utf8Decodes(s: string)
    ensures Utf8Decode(Utf8(s)) == s
    decreases |s|
  {
    if s != [] {
      Utf8CharDecodes(s[0], Utf8(s[1..]));
      Utf8Decodes(s[1..]);
      assert s == [s[0]] + s[1..];
    }
  }

  /** `unquote_plus(quote_plus(s)) == s` */
  lemma UnquoteQuote(s: string)
    ensures UnquotePlus(QuotePlus(s)) == s
  {
    QuotePlusDecodes(s, "");
    assert QuotePlus(s) + "" == QuotePlus(s);
    assert Utf8(s) + [] == Utf8(s);
    Utf8Decodes(s);
  }

  /** One encoded item parses back to the item. */
  lemma ItemRoundTrip(item: (string, string))
    ensures ParseItem(EncodeItem(item)) == item
  {
    var k, v := QuotePlus(item.0), QuotePlus(item.1);
    assert Join([k, v], '=') == k + "=" + v;
    SplitJoin([k, v], '=');
    UnquoteQuote(item.0);
    UnquoteQuote(item.1);
  }

  /** Parsing the encoded items gives the items back. */
  lemma {:induction false} ItemsRoundTrip(d: Entries<string>)
    ensures ParseItems(EncodeItems(d)) == d
    decreases |d|
  {
    if d != [] {
      ItemRoundTrip(d[0]);
      ItemsRoundTrip(d[1..]);
      assert EncodeItems(d)[1..] == EncodeItems(d[1..]);
    }
  }

  /** Parsing the output of `urlencode` recovers the dictionary, order
      included. */
  lemma UrlencodeRoundTrip(d: Entries<string>)
    ensures ParseQuery(Urlencode(d)) == d
  {
    var fields := EncodeItems(d);
    if d != [] {
      assert fields[0] == QuotePlus(d[0].0) + "=" + QuotePlus(d[0].1);
      assert Urlencode(d) != "" by {
        if |fields| > 1 {
          assert Urlencode(d) == fields[0] + "&" + Join(fields[1..], '&');
        }
      }
      SplitJoin(fields, '&');
      ItemsRoundTrip(d);
    }
  }

  /** `urlencode` writes nothing for an empty dictionary and starts with the
      first encoded item otherwise. */
  lemma UrlencodeShape(d: Entries<string>)
    ensures d == [] <==> Urlencode(d) == ""
    ensures d != [] ==> StartsWith(Urlencode(d), EncodeItem(d[0]))
    ensures |d| > 1 ==> Urlencode(d) == EncodeItem(d[0]) + "&" + Urlencode(d[1..])
    ensures |d| == 1 ==> Urlencode(d) == EncodeItem(d[0])
  {
    var fields := EncodeItems(d);
    if d != [] {
      assert fields[1..] == EncodeItems(d[1..]);
      if |d| > 1 {
        assert Urlencode(d) == fields[0] + "&" + Join(fields[1..], '&');
      }
    }
  }
}
