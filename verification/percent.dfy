/** Percent-encoding of URL path segments (dkdc-md-cli/src/client.rs,
    `PATH_SEGMENT` and `encode_path`). The string is encoded as UTF-8 and each
    byte is written either as itself or as `%` and two upper-case hex digits, as
    in section 2.1 of RFC 3986. A byte is escaped when it is a control byte
    (0x00-0x1F or 0x7F), one of space, `#`, `%`, `/`, `?`, or not ASCII. */
module PercentEncoding {
  import opened Wrappers

  type Byte = b: int | 0 <= b < 256

  // ---------------------------------------------------------------- UTF-8

  /** The UTF-8 encoding of one Unicode scalar value. */
  function Utf8Char(c: char): (r: seq<Byte>)
    ensures 1 <= |r| <= 4
    ensures c as int < 0x80 ==> r == [c as int]
    ensures c as int >= 0x80 ==> forall k :: 0 <= k < |r| ==> r[k] >= 0x80
  {
    var n := c as int;
    if n < 0x80 then [n]
    else if n < 0x800 then [0xC0 + n / 0x40, 0x80 + n % 0x40]
    else if n < 0x1_0000 then [0xE0 + n / 0x1000, 0x80 + (n / 0x40) % 0x40, 0x80 + n % 0x40]
    else [0xF0 + n / 0x4_0000, 0x80 + (n / 0x1000) % 0x40, 0x80 + (n / 0x40) % 0x40, 0x80 + n % 0x40]
  }

  /** The UTF-8 encoding of a string: Rust's `str::as_bytes`. An ASCII
      string encodes to its own code points, one byte each. */
  function Utf8(s: string): (r: seq<Byte>)
    ensures |r| >= |s|
    ensures (forall i :: 0 <= i < |s| ==> s[i] as int < 0x80) ==> r == seq(|s|, i requires 0 <= i < |s| => s[i] as int)
  {
    if s == [] then [] else Utf8Char(s[0]) + Utf8(s[1..])
  }

  /** The first byte of a character's encoding tells how many bytes it has;
      every later byte is a continuation byte, 0x80 to 0xBF. */
  lemma Utf8CharLength(c: char)
    ensures var r := Utf8Char(c);
            && (|r| == 1 <==> r[0] < 0x80)
            && (|r| == 2 <==> 0xC0 <= r[0] < 0xE0)
            && (|r| == 3 <==> 0xE0 <= r[0] < 0xF0)
            && (|r| == 4 <==> 0xF0 <= r[0])
            && forall k :: 1 <= k < |r| ==> 0x80 <= r[k] < 0xC0
  {
  }

  /** The code point a one- to four-byte UTF-8 sequence stands for: the
      payload bits of the first byte, then six bits per continuation byte. */
  function Utf8CharValue(r: seq<Byte>): int
    requires 1 <= |r| <= 4
  {
    if |r| == 1 then r[0]
    else if |r| == 2 then (r[0] as int - 0xC0) * 0x40 + (r[1] as int - 0x80)
    else if |r| == 3 then ((r[0] as int - 0xE0) * 0x40 + (r[1] as int - 0x80)) * 0x40 + (r[2] as int - 0x80)
    else (((r[0] as int - 0xF0) * 0x40 + (r[1] as int - 0x80)) * 0x40 + (r[2] as int - 0x80)) * 0x40 + (r[3] as int - 0x80)
  }

  lemma SixBits(n: nat)
    ensures n == (n / 0x40) * 0x40 + n % 0x40
    ensures n / 0x1000 == (n / 0x40) / 0x40
    ensures n / 0x4_0000 == (n / 0x1000) / 0x40
  {
  }

  /** Decoding a character's encoding gives back its code point. */
  lemma Utf8CharRoundTrip(c: char)
    ensures Utf8CharValue(Utf8Char(c)) == c as int
  {
    var n := c as int;
    var r := Utf8Char(c);
    SixBits(n);
    SixBits(n / 0x40);
    SixBits(n / 0x1000);
    if n < 0x80 {
    } else if n < 0x800 {
      assert r[0] as int - 0xC0 == n / 0x40;
    } else if n < 0x1_0000 {
      assert r[0] as int - 0xE0 == n / 0x1000;
      assert r[1] as int - 0x80 == (n / 0x40) % 0x40;
      assert (n / 0x1000) * 0x40 + (n / 0x40) % 0x40 == n / 0x40;
    } else {
      assert r[0] as int - 0xF0 == n / 0x4_0000;
      assert (n / 0x4_0000) * 0x40 + (n / 0x1000) % 0x40 == n / 0x1000;
      assert (n / 0x1000) * 0x40 + (n / 0x40) % 0x40 == n / 0x40;
    }
  }

  /** Distinct characters have distinct encodings. */
  lemma Utf8CharInjective(c: char, d: char)
    requires Utf8Char(c) == Utf8Char(d)
    ensures c == d
  {
    Utf8CharRoundTrip(c);
    Utf8CharRoundTrip(d);
  }

  /** Distinct strings have distinct encodings: the first byte fixes the
      length of the first character's encoding, so the characters can be
      read off one at a time. */
  lemma {:induction false} Utf8Injective(s: string, t: string)
    requires Utf8(s) == Utf8(t)
    ensures s == t
    decreases |s|
  {
    if s != [] {
      var b := Utf8(s);
      assert t != [];
      var x, y := Utf8Char(s[0]), Utf8Char(t[0]);
      assert b == x + Utf8(s[1..]) == y + Utf8(t[1..]);
      Utf8CharLength(s[0]);
      Utf8CharLength(t[0]);
      assert x[0] == b[0] == y[0];
      assert |x| == |y|;
      assert x == b[..|x|] == y;
      Utf8CharInjective(s[0], t[0]);
      assert Utf8(s[1..]) == b[|x|..] == Utf8(t[1..]);
      Utf8Injective(s[1..], t[1..]);
      assert s == [s[0]] + s[1..] && t == [t[0]] + t[1..];
    } else {
      assert |t| <= |Utf8(t)| == 0;
    }
  }

  // ---------------------------------------------------------------- the reserved set

  /** `CONTROLS.add(b' ').add(b'#').add(b'%').add(b'/').add(b'?')`. */
  predicate InPathSegmentSet(b: Byte) {
    b < 0x20 || b == 0x7F || b == ' ' as int || b == '#' as int || b == '%' as int
    || b == '/' as int || b == '?' as int
  }

  /** `utf8_percent_encode` escapes the set's members and every non-ASCII byte. */
  predicate Escaped(b: Byte) {
    b >= 0x80 || InPathSegmentSet(b)
  }

  /** A character that may stand for itself in an encoded segment. */
  predicate IsPlain(c: char) {
    c as int < 0x80 && !Escaped(c as int)
  }

  predicate IsHexDigit(c: char) {
    '0' <= c <= '9' || 'A' <= c <= 'F' || 'a' <= c <= 'f'
  }

  function HexDigit(d: nat): (c: char)
    requires d < 16
    ensures IsHexDigit(c) && IsPlain(c)
  {
    "0123456789ABCDEF"[d]
  }

  function HexValue(c: char): (d: nat)
    requires IsHexDigit(c)
    ensures d < 16
  {
    if '0' <= c <= '9' then c as int - '0' as int
    else if 'A' <= c <= 'F' then c as int - 'A' as int + 10
    else c as int - 'a' as int + 10
  }

  lemma HexRoundTrip(d: nat)
    requires d < 16
    ensures HexValue(HexDigit(d)) == d
  {
  }

  // ---------------------------------------------------------------- encoding

  /** One byte of the input as it appears in the output. */
  function EncodeByte(b: Byte): (r: string)
    ensures Escaped(b) ==> |r| == 3 && r[0] == '%'
    ensures !Escaped(b) ==> r == [b as char]
  {
    if Escaped(b) then ['%', HexDigit(b / 16), HexDigit(b % 16)] else [b as char]
  }

  /** The byte-level encoder, one byte after another. Its output is ASCII, and
      `%` appears in it only to introduce an escape. */
  function EncodeBytes(bs: seq<Byte>): (r: string)
    ensures forall k :: 0 <= k < |r| ==> r[k] == '%' || IsPlain(r[k])
  {
    if bs == [] then "" else EncodeByte(bs[0]) + EncodeBytes(bs[1..])
  }

  /** `encode_path`. Decoding its result gives back the string's UTF-8
      bytes. */
  function EncodePath(s: string): (r: string)
    ensures PercentDecode(r) == Some(Utf8(s))
  {
    DecodeEncodeBytes(Utf8(s));
    EncodeBytes(Utf8(s))
  }

  // ---------------------------------------------------------------- decoding

  /** Percent-decoding as section 2.1 of RFC 3986 describes it: `%` and two hex
      digits (either case) stand for one byte, every other ASCII character for
      its own code. A stray `%` or a non-ASCII character is malformed. */
  function PercentDecode(t: string): (r: Option<seq<Byte>>)
  {
    if t == [] then Some([])
    else if t[0] == '%' then
      if |t| >= 3 && IsHexDigit(t[1]) && IsHexDigit(t[2]) then
        match PercentDecode(t[3..])
        case Some(rest) => Some([16 * HexValue(t[1]) + HexValue(t[2])] + rest)
        case None => None
      else None
    else if t[0] as int < 0x80 then
      match PercentDecode(t[1..])
      case Some(rest) => Some([t[0] as int] + rest)
      case None => None
    else None
  }

  // ---------------------------------------------------------------- properties

  /** Decoding an encoded byte string gives back exactly those bytes: the
      encoding loses nothing, so distinct inputs give distinct outputs. */
  lemma {:induction false} DecodeEncodeBytes(bs: seq<Byte>)
    ensures PercentDecode(EncodeBytes(bs)) == Some(bs)
  {
    if bs != [] {
      var b := bs[0];
      var e := EncodeBytes(bs);
      DecodeEncodeBytes(bs[1..]);
      assert e == EncodeByte(b) + EncodeBytes(bs[1..]);
      if Escaped(b) {
        assert e[3..] == EncodeBytes(bs[1..]);
        HexRoundTrip(b / 16);
        HexRoundTrip(b % 16);
      } else {
        assert e[1..] == EncodeBytes(bs[1..]);
      }
      assert bs == [b] + bs[1..];
    }
  }

  /** Percent-decoding `encode_path(s)` yields the UTF-8 bytes of `s`. */
  lemma DecodeEncodePath(s: string)
    ensures PercentDecode(EncodePath(s)) == Some(Utf8(s))
  {
    DecodeEncodeBytes(Utf8(s));
  }

  /** `encode_path` is injective: two identifiers never share an encoding. */
  lemma {:induction false} EncodePathInjective(s: string, s': string)
    requires EncodePath(s) == EncodePath(s')
    ensures s == s'
  {
    DecodeEncodePath(s);
    DecodeEncodePath(s');
    Utf8Injective(s, s');
  }

  /** An encoded segment holds no character that ends a URL path segment or
      starts a query or fragment: no `/`, `?`, `#` and no space. */
  lemma EncodedHasNoDelimiters(s: string)
    ensures '/' !in EncodePath(s) && '?' !in EncodePath(s)
    ensures '#' !in EncodePath(s) && ' ' !in EncodePath(s)
  {
    var e := EncodePath(s);
    assert forall k :: 0 <= k < |e| ==> e[k] != '/' && e[k] != '?' && e[k] != '#' && e[k] != ' ';
  }

  /** A character is copied through unchanged when it is ASCII and outside the
      reserved set; encoding such a string is the identity. */
  lemma {:induction false} PlainStringUnchanged(s: string)
    requires forall k :: 0 <= k < |s| ==> IsPlain(s[k])
    ensures EncodePath(s) == s
  {
    if s != [] {
      PlainStringUnchanged(s[1..]);
      assert Utf8Char(s[0]) == [s[0] as int];
      assert Utf8(s) == [s[0] as int] + Utf8(s[1..]);
      assert EncodeBytes(Utf8(s)) == EncodeByte(s[0] as int) + EncodeBytes(Utf8(s[1..]));
      assert s == [s[0]] + s[1..];
    }
  }

  /** A reserved or non-ASCII byte becomes `%` followed by its value in two
      upper-case hex digits. */
  lemma EscapeForm(b: Byte)
    requires Escaped(b)
    ensures EncodeByte(b) == ['%', "0123456789ABCDEF"[b / 16], "0123456789ABCDEF"[b % 16]]
    ensures HexValue(EncodeByte(b)[1]) * 16 + HexValue(EncodeByte(b)[2]) == b
  {
    HexRoundTrip(b / 16);
    HexRoundTrip(b % 16);
  }

  /** Every byte of a non-ASCII character is escaped. */
  lemma NonAsciiEscaped(c: char)
    requires c as int >= 0x80
    ensures forall k :: 0 <= k < |Utf8Char(c)| ==> Escaped(Utf8Char(c)[k])
  {
  }

  /** The cases exercised in the repository's tests. */
  lemma SafeIdentifierUnchanged()
    ensures EncodePath("svc_test-user.1") == "svc_test-user.1"
  {
    var s := "svc_test-user.1";
    assert forall k :: 0 <= k < |s| ==> IsPlain(s[k]);
    PlainStringUnchanged(s);
  }

  lemma {:induction false} EncodeBytesConcat(a: seq<Byte>, b: seq<Byte>)
    ensures EncodeBytes(a + b) == EncodeBytes(a) + EncodeBytes(b)
    decreases |a|
  {
    if a == [] {
      assert a + b == b;
    } else {
      assert (a + b)[1..] == a[1..] + b;
      EncodeBytesConcat(a[1..], b);
    }
  }

  lemma UnsafeCharactersEscaped()
    ensures EncodePath("a/b?c#d e") == "a%2Fb%3Fc%23d%20e"
  {
    EncodeExampleBytes();
    EncodeBytesConcat([0x61, 0x2F, 0x62, 0x3F, 0x63], [0x23, 0x64, 0x20, 0x65]);
    EncodeExampleHead();
    EncodeExampleTail();
    EncodeExampleJoin();
  }

  lemma EncodeExampleBytes()
    ensures Utf8("a/b?c#d e") == [0x61, 0x2F, 0x62, 0x3F, 0x63] + [0x23, 0x64, 0x20, 0x65]
  {
    ExampleAsciiBytes("a/b?c#d e");
  }

  /** The example is ASCII, so its bytes are its code points. */
  lemma ExampleAsciiBytes(s: string)
    requires s == "a/b?c#d e"
    ensures Utf8(s) == [0x61, 0x2F, 0x62, 0x3F, 0x63] + [0x23, 0x64, 0x20, 0x65]
  {
    assert forall i :: 0 <= i < |s| ==> s[i] as int < 0x80;
    assert seq(|s|, i requires 0 <= i < |s| => s[i] as int) == [0x61, 0x2F, 0x62, 0x3F, 0x63, 0x23, 0x64, 0x20, 0x65];
  }

  lemma EncodeExampleJoin()
    ensures "a%2Fb%3Fc" + "%23d%20e" == "a%2Fb%3Fc%23d%20e"
  {
  }

  lemma EncodeExampleHead()
    ensures EncodeBytes([0x61, 0x2F, 0x62, 0x3F, 0x63]) == "a%2Fb%3Fc"
  {
    assert EncodeByte(0x2F) == "%2F" by { assert HexDigit(2) == '2' && HexDigit(15) == 'F'; }
    assert EncodeByte(0x3F) == "%3F" by { assert HexDigit(3) == '3' && HexDigit(15) == 'F'; }
    assert EncodeBytes([0x3F, 0x63]) == "%3Fc";
    assert EncodeBytes([0x62, 0x3F, 0x63]) == "b%3Fc";
    assert EncodeBytes([0x2F, 0x62, 0x3F, 0x63]) == "%2Fb%3Fc";
  }

  lemma EncodeExampleTail()
    ensures EncodeBytes([0x23, 0x64, 0x20, 0x65]) == "%23d%20e"
  {
    assert EncodeByte(0x23) == "%23" by { assert HexDigit(2) == '2' && HexDigit(3) == '3'; }
    assert EncodeByte(0x20) == "%20" by { assert HexDigit(2) == '2' && HexDigit(0) == '0'; }
    assert EncodeBytes([0x20, 0x65]) == "%20e";
    assert EncodeBytes([0x64, 0x20, 0x65]) == "d%20e";
  }
}
