/** Python's `urllib.parse.quote(path, safe='/:?=&')`, as app/utils/helpers.py calls it:
    the string is encoded as UTF-8 and every byte outside the safe set becomes `%XX` with
    upper-case hex digits. */
module PercentEncoding {
  import opened Strings

  type Byte = b: int | 0 <= b < 256

  /** The length of a UTF-8 sequence, read off its first byte. */
  function SequenceLength(b: Byte): nat {
    if b < 0x80 then 1 else if b < 0xE0 then 2 else if b < 0xF0 then 3 else 4
  }

  /** The scalar value a UTF-8 sequence of one to four bytes stands for. */
  function ScalarValue(r: seq<Byte>): int
    requires 1 <= |r| <= 4
  {
    var b: seq<int> := r;
    if |b| == 1 then b[0]
    else if |b| == 2 then (b[0] - 0xC0) * 0x40 + (b[1] - 0x80)
    else if |b| == 3 then (b[0] - 0xE0) * 0x1000 + (b[1] - 0x80) * 0x40 + (b[2] - 0x80)
    else (b[0] - 0xF0) * 0x4_0000 + (b[1] - 0x80) * 0x1000 + (b[2] - 0x80) * 0x40 + (b[3] - 0x80)
  }

  /** The UTF-8 encoding of one Unicode scalar value (section 3 of RFC 3629): its first byte
      announces its length, the others are continuation bytes, and decoding gives the value
      back. */
  function Utf8Char(c: char): (r: seq<Byte>)
    ensures 1 <= |r| <= 4 && |r| == SequenceLength(r[0])
    ensures |r| == 1 <==> (c as int) < 0x80
    ensures forall k :: 1 <= k < |r| ==> 0x80 <= r[k] < 0xC0
    ensures ScalarValue(r) == c as int
  {
    // Six bits per continuation byte, taken from the low end.
    var v := c as int;
    var a := v / 0x40;
    var b := a / 0x40;
    var d := b / 0x40;
    if v < 0x80 then [v]
    else if v < 0x800 then [0xC0 + a, 0x80 + v % 0x40]
    else if v < 0x1_0000 then [0xE0 + b, 0x80 + a % 0x40, 0x80 + v % 0x40]
    else [0xF0 + d, 0x80 + b % 0x40, 0x80 + a % 0x40, 0x80 + v % 0x40]
  }

  /** `str.encode('utf-8')`. */
  function Utf8(s: string): (r: seq<Byte>)
    ensures |r| >= |s|
  {
    if s == [] then [] else Utf8Char(s[0]) + Utf8(s[1..])
  }

  /** The bytes `quote` never escapes: ASCII letters, digits and `_.-~`. */
  predicate AlwaysSafe(b: Byte) {
    || ('A' as int <= b <= 'Z' as int) || ('a' as int <= b <= 'z' as int)
    || ('0' as int <= b <= '9' as int)
    || b == '_' as int || b == '.' as int || b == '-' as int || b == '~' as int
  }

  /** The bytes left as they are with `safe='/:?=&'`. */
  predicate Safe(b: Byte) {
    AlwaysSafe(b) || b == '/' as int || b == ':' as int || b == '?' as int || b == '=' as int || b == '&' as int
  }

  /** Upper-case hexadecimal digit, as `'{:02X}'` prints it. */
  function HexDigit(d: nat): (c: char)
    requires d < 16
    ensures ('0' <= c <= '9') || ('A' <= c <= 'F')
  {
    if d < 10 then ('0' as int + d) as char else ('A' as int + d - 10) as char
  }

  /** The value of a hex digit, either case. */
  function HexValue(c: char): (d: nat)
    ensures d < 16
  {
    if '0' <= c <= '9' then c as int - '0' as int
    else if 'A' <= c <= 'F' then c as int - 'A' as int + 10
    else if 'a' <= c <= 'f' then c as int - 'a' as int + 10
    else 0
  }

  predicate IsHexChar(c: char) {
    ('0' <= c <= '9') || ('A' <= c <= 'F') || ('a' <= c <= 'f')
  }

  /** One byte as `quote` writes it. */
  function QuoteByte(b: Byte): (r: string)
    ensures Safe(b) ==> r == [b as char]
    ensures !Safe(b) ==> |r| == 3 && r[0] == '%' && IsHexChar(r[1]) && IsHexChar(r[2])
                          && HexValue(r[1]) * 16 + HexValue(r[2]) == b
  {
    if Safe(b) then [b as char] else ['%', HexDigit(b / 16), HexDigit(b % 16)]
  }

  /** `quote_from_bytes`: every byte written in turn; the result holds URL characters only. */
  function QuoteBytes(bs: seq<Byte>): (r: string)
    ensures forall k :: 0 <= k < |r| ==> UrlChar(r[k])
  {
    if bs == [] then []
    else
      var head, tail := QuoteByte(bs[0]), QuoteBytes(bs[1..]);
      assert forall k :: |head| <= k < |head + tail| ==> (head + tail)[k] == tail[k - |head|];
      head + tail
  }

  /** `quote(s, safe='/:?=&')`: the result holds URL characters only and percent-decodes to
      the UTF-8 bytes of `s`. */
  function Quote(s: string): (r: string)
    ensures forall k :: 0 <= k < |r| ==> UrlChar(r[k])
    ensures UnquoteToBytes(r) == Utf8(s)
  {
    UnquoteQuoteBytes(Utf8(s));
    QuoteBytes(Utf8(s))
  }

  /** The characters `quote` can produce: safe ASCII bytes, `%` and hex digits. */
  predicate UrlChar(c: char) {
    (c as int < 256 && Safe(c as int)) || c == '%' || IsHexChar(c)
  }

  /** Percent-decoding to bytes (`unquote_to_bytes`) of a string whose characters are all
      `UrlChar`s: `%` and two hex digits give one byte, any other character its own code. */
  function UnquoteToBytes(s: string): seq<Byte>
    requires forall k :: 0 <= k < |s| ==> UrlChar(s[k])
  {
    if s == [] then []
    else if s[0] == '%' && |s| >= 3 && IsHexChar(s[1]) && IsHexChar(s[2]) then
      [HexValue(s[1]) * 16 + HexValue(s[2])] + UnquoteToBytes(s[3..])
    else
      assert UrlChar(s[0]);
      [s[0] as int] + UnquoteToBytes(s[1..])
  }

  /** Round trip: percent-decoding what `quote` wrote gives back the UTF-8 bytes. */
  lemma {:induction false} UnquoteQuoteBytes(bs: seq<Byte>)
    ensures UnquoteToBytes(QuoteBytes(bs)) == bs
  {
    if bs != [] {
      var head, tail := QuoteByte(bs[0]), QuoteBytes(bs[1..]);
      UnquoteQuoteBytes(bs[1..]);
      var s := head + tail;
      assert QuoteBytes(bs) == s;
      if Safe(bs[0]) {
        assert s[0] == bs[0] as char && s[1..] == tail;
      } else {
        assert s[..3] == head && s[3..] == tail;
      }
    }
  }

  /** `quote` is the identity on a string made of safe ASCII characters only, such as
      `/static/js/shared-utils.js`. */
  lemma {:induction false} QuoteSafeIdentity(s: string)
    requires forall k :: 0 <= k < |s| ==> (s[k] as int) < 0x80 && Safe(s[k] as int)
    ensures Quote(s) == s
  {
    if s != [] {
      QuoteSafeIdentity(s[1..]);
      assert Utf8(s) == [s[0] as int] + Utf8(s[1..]);
    }
  }

  /** Distinct strings have distinct UTF-8 encodings. */
  lemma {:induction false} Utf8Injective(a: string, b: string)
    requires Utf8(a) == Utf8(b)
    ensures a == b
  {
    if a != [] && b != [] {
      var ea, eb := Utf8Char(a[0]), Utf8Char(b[0]);
      var u := Utf8(a);
      assert u == ea + Utf8(a[1..]) && u == eb + Utf8(b[1..]);
      assert ea[0] == u[0] == eb[0];
      assert |ea| == |eb|;
      assert ea == u[..|ea|] == eb;
      assert a[0] as int == ScalarValue(ea) == b[0] as int;
      assert Utf8(a[1..]) == u[|ea|..] == Utf8(b[1..]);
      Utf8Injective(a[1..], b[1..]);
      assert a == [a[0]] + a[1..];
      assert b == [b[0]] + b[1..];
    }
  }

  /** Distinct paths are quoted to distinct URLs. */
  lemma QuoteInjective(a: string, b: string)
    requires Quote(a) == Quote(b)
    ensures a == b
  {
    UnquoteQuoteBytes(Utf8(a));
    UnquoteQuoteBytes(Utf8(b));
    Utf8Injective(a, b);
  }

  /** `quote` works character by character: quoting a concatenation concatenates the quoted
      parts. */
  lemma QuoteAppend(a: string, b: string)
    ensures Quote(a + b) == Quote(a) + Quote(b)
  {
    Utf8Append(a, b);
    QuoteBytesAppend(Utf8(a), Utf8(b));
  }

  /** A space is escaped as `%20`. */
  lemma QuoteSpace()
    ensures Quote(" ") == "%20"
  {
    assert Utf8(" ") == [32];
  }

  lemma {:induction false} Utf8Append(a: string, b: string)
    ensures Utf8(a + b) == Utf8(a) + Utf8(b)
  {
    if a != [] {
      assert (a + b)[0] == a[0] && (a + b)[1..] == a[1..] + b;
      Utf8Append(a[1..], b);
      assert Utf8(a + b) == Utf8Char(a[0]) + (Utf8(a[1..]) + Utf8(b));
    } else {
      assert a + b == b;
    }
  }

  lemma {:induction false} QuoteBytesAppend(a: seq<Byte>, b: seq<Byte>)
    ensures QuoteBytes(a + b) == QuoteBytes(a) + QuoteBytes(b)
  {
    if a != [] {
      assert (a + b)[0] == a[0] && (a + b)[1..] == a[1..] + b;
      QuoteBytesAppend(a[1..], b);
      assert QuoteBytes(a + b) == QuoteByte(a[0]) + (QuoteBytes(a[1..]) + QuoteBytes(b));
    } else {
      assert a + b == b;
    }
  }
}
