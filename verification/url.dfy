/**
  Percent-encoding as PHP's `rawurlencode` does it, and the query string of
  `http_build_query(..., '', '&', PHP_QUERY_RFC3986)`.  PHP encodes the bytes
  of a string; a Dafny string is taken to be held as UTF-8 (RFC 3629), so the
  encoder first turns it into bytes.  Only the unreserved characters of
  section 2.3 of RFC 3986 pass through; every other byte becomes a
  percent-encoded triple with upper-case hex digits (section 2.1 of RFC 3986).
 */
module Url {
  import opened Wrappers
  import Text

  newtype byte = x: int | 0 <= x < 256

  /** The unreserved characters of section 2.3 of RFC 3986: letters, digits, `-`, `.`, `_` and `~`. */
  predicate IsUnreserved(c: char)
  {
    ('A' <= c <= 'Z') || ('a' <= c <= 'z') || ('0' <= c <= '9') || c == '-' || c == '.' || c == '_' || c == '~'
  }

  /** The UTF-8 encoding of one character (section 3 of RFC 3629). */
  function Utf8(c: char): (r: seq<byte>)
    ensures 1 <= |r| <= 4
    ensures c as int < 0x80 ==> r == [c as int as byte]
    ensures c as int >= 0x80 ==> forall i | 0 <= i < |r| :: r[i] >= 0x80
  {
    var n := c as int;
    if n < 0x80 then [n as byte]
    else if n < 0x800 then [(0xC0 + n / 0x40) as byte, (0x80 + n % 0x40) as byte]
    else if n < 0x1_0000 then
      [(0xE0 + n / 0x1000) as byte, (0x80 + (n / 0x40) % 0x40) as byte, (0x80 + n % 0x40) as byte]
    else
      [(0xF0 + n / 0x4_0000) as byte, (0x80 + (n / 0x1000) % 0x40) as byte,
       (0x80 + (n / 0x40) % 0x40) as byte, (0x80 + n % 0x40) as byte]
  }

  /** The UTF-8 bytes of a string; ASCII text is its own byte string. */
  function Utf8Encode(s: string): (r: seq<byte>)
    ensures |r| >= |s|
    ensures (forall i | 0 <= i < |s| :: s[i] as int < 0x80) ==>
      |r| == |s| && forall i | 0 <= i < |s| :: r[i] as int == s[i] as int
    decreases |s|
  {
    if |s| == 0 then [] else Utf8(s[0]) + Utf8Encode(s[1..])
  }

  /** The hex digit for a value below 16, upper-case as `rawurlencode` writes it. */
  function HexDigit(n: nat): (c: char)
    requires n < 16
    ensures IsHexDigit(c) && HexValue(c) == n
    ensures !('a' <= c <= 'f')
  {
    if n < 10 then ('0' as int + n) as char else ('A' as int + n - 10) as char
  }

  predicate IsHexDigit(c: char)
  {
    ('0' <= c <= '9') || ('A' <= c <= 'F') || ('a' <= c <= 'f')
  }

  /** The value of a hex digit of either case. */
  function HexValue(c: char): (n: nat)
    requires IsHexDigit(c)
    ensures n < 16
  {
    if '0' <= c <= '9' then c as int - '0' as int
    else if 'A' <= c <= 'F' then c as int - 'A' as int + 10
    else c as int - 'a' as int + 10
  }

  /** The unreserved characters are ASCII, so they are bytes of their own. */
  predicate IsUnreservedByte(b: byte)
  {
    IsUnreserved(b as int as char)
  }

  /** `rawurlencode` of one byte: an unreserved byte is kept, any other becomes `%XX`. */
  function EncodeByte(b: byte): (r: string)
    ensures IsUnreservedByte(b) ==> r == [b as int as char]
    ensures !IsUnreservedByte(b) ==>
      && |r| == 3 && r[0] == '%' && IsHexDigit(r[1]) && IsHexDigit(r[2])
      && !('a' <= r[1] <= 'f') && !('a' <= r[2] <= 'f')
      && 16 * HexValue(r[1]) + HexValue(r[2]) == b as int
  {
    if IsUnreservedByte(b) then [b as int as char]
    else ['%', HexDigit(b as int / 16), HexDigit(b as int % 16)]
  }

  /**
    The shape of a percent-encoded component: a run of unreserved characters
    and `%XX` triples with upper-case hex digits.
   */
  predicate IsEncoded(t: string)
    decreases |t|
  {
    if |t| == 0 then true
    else if IsUnreserved(t[0]) then IsEncoded(t[1..])
    else
      && |t| >= 3 && t[0] == '%' && IsHexDigit(t[1]) && IsHexDigit(t[2])
      && !('a' <= t[1] <= 'f') && !('a' <= t[2] <= 'f')
      && IsEncoded(t[3..])
  }

  /** Every character of an encoded component is unreserved, `%`, or a hex digit (itself unreserved). */
  lemma {:induction false} EncodedChars(t: string)
    requires IsEncoded(t)
    ensures forall i | 0 <= i < |t| :: IsUnreserved(t[i]) || t[i] == '%'
    decreases |t|
  {
    if |t| > 0 {
      if IsUnreserved(t[0]) {
        EncodedChars(t[1..]);
      } else {
        EncodedChars(t[3..]);
      }
    }
  }

  /** `rawurlencode` of a byte string. */
  function EncodeBytes(bs: seq<byte>): (r: string)
    ensures IsEncoded(r)
    decreases |bs|
  {
    if |bs| == 0 then ""
    else
      var head := EncodeByte(bs[0]);
      var r := head + EncodeBytes(bs[1..]);
      if IsUnreservedByte(bs[0]) then
        assert r[1..] == EncodeBytes(bs[1..]);
        r
      else
        assert r[3..] == EncodeBytes(bs[1..]);
        r
  }

  /**
    PHP's `rawurlencode` of a string: its UTF-8 bytes, encoded.  The result is
    an encoded component, so it never holds a delimiter such as `&`, `=`, `?`
    or `,`, and a string of unreserved characters comes back unchanged.
   */
  function RawUrlEncode(s: string): (r: string)
    ensures IsEncoded(r)
    ensures forall i | 0 <= i < |r| :: IsUnreserved(r[i]) || r[i] == '%'
    ensures (forall i | 0 <= i < |s| :: IsUnreserved(s[i])) ==> r == s
  {
    var r := EncodeBytes(Utf8Encode(s));
    EncodedChars(r);
    if forall i | 0 <= i < |s| :: IsUnreserved(s[i]) then
      EncodeUnreserved(s);
      r
    else
      r
  }

  lemma {:induction false} EncodeUnreserved(s: string)
    requires forall i | 0 <= i < |s| :: IsUnreserved(s[i])
    ensures EncodeBytes(Utf8Encode(s)) == s
    decreases |s|
  {
    if |s| > 0 {
      EncodeUnreserved(s[1..]);
      assert Utf8Encode(s) == [s[0] as int as byte] + Utf8Encode(s[1..]);
      assert [s[0]] + s[1..] == s;
    }
  }

  /**
    The strict reading of a percent-encoded component back into bytes
    (sections 2.1 and 2.3 of RFC 3986): an unreserved character stands for
    its own byte and `%XX` for the byte with that hex value; anything else
    is malformed.
   */
  function PercentDecode(t: string): (r: Option<seq<byte>>)
    ensures r.Some? ==> |r.value| <= |t|
    decreases |t|
  {
    if |t| == 0 then Some([])
    else if t[0] == '%' then
      if |t| >= 3 && IsHexDigit(t[1]) && IsHexDigit(t[2]) then
        match PercentDecode(t[3..])
        case None => None
        case Some(rest) => Some([(16 * HexValue(t[1]) + HexValue(t[2])) as byte] + rest)
      else None
    else if IsUnreserved(t[0]) then
      match PercentDecode(t[1..])
      case None => None
      case Some(rest) => Some([t[0] as int as byte] + rest)
    else None
  }

  /** Decoding undoes `rawurlencode` on every byte string. */
  lemma {:induction false} DecodeEncodeBytes(bs: seq<byte>)
    ensures PercentDecode(EncodeBytes(bs)) == Some(bs)
    decreases |bs|
  {
    if |bs| > 0 {
      DecodeEncodeBytes(bs[1..]);
      var head := EncodeByte(bs[0]);
      var t := head + EncodeBytes(bs[1..]);
      assert [bs[0]] + bs[1..] == bs;
      if IsUnreservedByte(bs[0]) {
        assert t[1..] == EncodeBytes(bs[1..]);
      } else {
        assert t[3..] == EncodeBytes(bs[1..]);
      }
    }
  }

  /** Decoding `rawurlencode(s)` gives back the UTF-8 bytes of `s`. */
  lemma DecodeRawUrlEncode(s: string)
    ensures PercentDecode(RawUrlEncode(s)) == Some(Utf8Encode(s))
  {
    DecodeEncodeBytes(Utf8Encode(s));
  }

  lemma {:induction false} Utf8EncodeConcat(a: string, b: string)
    ensures Utf8Encode(a + b) == Utf8Encode(a) + Utf8Encode(b)
    decreases |a|
  {
    if |a| == 0 {
      assert a + b == b;
    } else {
      assert (a + b)[1..] == a[1..] + b;
      Utf8EncodeConcat(a[1..], b);
    }
  }

  lemma {:induction false} EncodeBytesConcat(a: seq<byte>, b: seq<byte>)
    ensures EncodeBytes(a + b) == EncodeBytes(a) + EncodeBytes(b)
    decreases |a|
  {
    if |a| == 0 {
      assert a + b == b;
    } else {
      assert (a + b)[1..] == a[1..] + b;
      EncodeBytesConcat(a[1..], b);
    }
  }

  /** `rawurlencode` works character by character: it distributes over concatenation. */
  lemma RawUrlEncodeConcat(a: string, b: string)
    ensures RawUrlEncode(a + b) == RawUrlEncode(a) + RawUrlEncode(b)
  {
    Utf8EncodeConcat(a, b);
    EncodeBytesConcat(Utf8Encode(a), Utf8Encode(b));
  }

  /** An encoded component holds none of the delimiters a `mailto:` link is built with. */
  lemma NoDelimiters(s: string)
    ensures var e := RawUrlEncode(s);
      '?' !in e && '&' !in e && '=' !in e && ',' !in e
  {
    var e := RawUrlEncode(s);
    assert forall i | 0 <= i < |e| :: IsUnreserved(e[i]) || e[i] == '%';
  }

  /** One `key=value` pair of `http_build_query` in the RFC 3986 profile. */
  function EncodePair(p: (string, string)): (r: string)
  {
    RawUrlEncode(p.0) + "=" + RawUrlEncode(p.1)
  }

  /** An encoded pair is not empty and holds neither `?` nor `&`. */
  lemma EncodePairChars(p: (string, string))
    ensures |EncodePair(p)| > 0
    ensures '?' !in EncodePair(p) && '&' !in EncodePair(p)
  {
    var k, v := RawUrlEncode(p.0), RawUrlEncode(p.1);
    NoDelimiters(p.0);
    NoDelimiters(p.1);
    NotInConcat(k, "=", v, '?');
    NotInConcat(k, "=", v, '&');
  }

  lemma NotInConcat(a: string, b: string, c: string, x: char)
    requires x !in a && x !in b && x !in c
    ensures x !in a + b + c
  {
  }

  function EncodePairs(params: seq<(string, string)>): (r: seq<string>)
  {
    seq(|params|, i requires 0 <= i < |params| => EncodePair(params[i]))
  }

  /**
    `http_build_query($params, '', '&', PHP_QUERY_RFC3986)` for string values:
    the encoded pairs in order, separated by `&`.  It never contains `?`, and
    it is empty exactly when there are no parameters.
   */
  function BuildQuery(params: seq<(string, string)>): (r: string)
    ensures '?' !in r
    ensures |r| == 0 <==> |params| == 0
  {
    QueryFacts(params);
    Text.Join(EncodePairs(params), '&')
  }

  lemma QueryFacts(params: seq<(string, string)>)
    ensures '?' !in Text.Join(EncodePairs(params), '&')
    ensures |Text.Join(EncodePairs(params), '&')| == 0 <==> |params| == 0
  {
    var pairs := EncodePairs(params);
    forall i | 0 <= i < |pairs| ensures '?' !in pairs[i] {
      EncodePairChars(params[i]);
    }
    Text.NotInJoin(pairs, '&', '?');
    if |pairs| > 0 {
      EncodePairChars(params[0]);
    }
  }
}
