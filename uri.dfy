/** The percent-encoding that `talkURL` relies on: the `encodeURIComponent`
    built-in of ECMAScript (ECMA-262, section 19.2.6.5, through the abstract
    operation Encode of section 19.2.6.1.1), and its inverse
    `decodeURIComponent` as the server applies it to a path segment.

    A Dafny `char` is a Unicode scalar value, so a lone surrogate (the one
    input on which `encodeURIComponent` throws) cannot be written here; a
    character outside the Basic Multilingual Plane stands for the surrogate
    pair a JavaScript string would hold, which the built-in encodes as one
    four-octet UTF-8 sequence. */
module Uri {
  import opened Wrappers

  type Byte = b: int | 0 <= b < 256
  type Nibble = d: int | 0 <= d < 16

  /** The characters `encodeURIComponent` leaves unescaped: ASCII letters,
      decimal digits and the marks - _ . ! ~ * ' ( ) */
  predicate Unreserved(c: char) {
    ('A' <= c <= 'Z') || ('a' <= c <= 'z') || ('0' <= c <= '9') ||
    c == '-' || c == '_' || c == '.' || c == '!' || c == '~' ||
    c == '*' || c == '\'' || c == '(' || c == ')'
  }

  /** Upper-case hexadecimal digit, as the Encode operation writes it. */
  function HexDigit(d: Nibble): (c: char)
    ensures Unreserved(c) && c != '%'
  {
    if d < 10 then ('0' as int + d) as char else ('A' as int + d - 10) as char
  }

  /** The value of a hexadecimal digit of either case. */
  function HexValue(c: char): (r: Option<Nibble>)
    ensures r.Some? <==> ('0' <= c <= '9') || ('A' <= c <= 'F') || ('a' <= c <= 'f')
  {
    if '0' <= c <= '9' then Some(c as int - '0' as int)
    else if 'A' <= c <= 'F' then Some(c as int - 'A' as int + 10)
    else if 'a' <= c <= 'f' then Some(c as int - 'a' as int + 10)
    else None
  }

  lemma HexValueOfDigit(d: Nibble)
    ensures HexValue(HexDigit(d)) == Some(d)
  {
  }

  /** The UTF-8 octets of one scalar value (RFC 3629, section 3). */
  function Utf8(c: char): (bs: seq<Byte>)
    ensures 1 <= |bs| <= 4
  {
    var n := c as int;
    if n < 0x80 then [n]
    else if n < 0x800 then [0xC0 + n / 64, 0x80 + n % 64]
    else if n < 0x10000 then [0xE0 + n / 4096, 0x80 + (n / 64) % 64, 0x80 + n % 64]
    else [0xF0 + n / 262144, 0x80 + (n / 4096) % 64, 0x80 + (n / 64) % 64, 0x80 + n % 64]
  }

  /** The UTF-8 octets of a whole string. */
  function Utf8Encode(s: string): seq<Byte> {
    if s == [] then [] else Utf8(s[0]) + Utf8Encode(s[1..])
  }

  /** One octet as the triple "%XX". */
  function Escape(b: Byte): (r: string)
    ensures |r| == 3 && r[0] == '%'
    ensures HexValue(r[1]) == Some(b / 16) && HexValue(r[2]) == Some(b % 16)
  {
    HexValueOfDigit(b / 16);
    HexValueOfDigit(b % 16);
    ['%', HexDigit(b / 16), HexDigit(b % 16)]
  }

  function EscapeAll(bs: seq<Byte>): (r: string)
    ensures |r| == 3 * |bs|
    ensures forall c | c in r :: Unreserved(c) || c == '%'
  {
    if bs == [] then [] else Escape(bs[0]) + EscapeAll(bs[1..])
  }

  function EncodeChar(c: char): (r: string)
    ensures r != []
    ensures forall x | x in r :: Unreserved(x) || x == '%'
  {
    if Unreserved(c) then [c] else EscapeAll(Utf8(c))
  }

  /** `encodeURIComponent(s)`: every unreserved character is kept, every
      other character is replaced by the "%XX" triples of its UTF-8 octets.
      What comes out holds nothing but unreserved characters and '%'. */
  function EncodeURIComponent(s: string): (r: string)
    ensures forall c | c in r :: Unreserved(c) || c == '%'
    ensures |r| >= |s|
  {
    if s == [] then [] else EncodeChar(s[0]) + EncodeURIComponent(s[1..])
  }

  /** Percent-decoding to octets: "%XX" gives the octet XX, any other
      character gives its own UTF-8 octets; a '%' that is not followed by
      two hexadecimal digits is malformed. */
  function Unescape(s: string): Option<seq<Byte>>
    decreases |s|
  {
    if s == [] then Some([])
    else if s[0] == '%' then
      if |s| < 3 || HexValue(s[1]).None? || HexValue(s[2]).None? then None
      else
        match Unescape(s[3..])
        case None => None
        case Some(rest) => Some([HexValue(s[1]).value * 16 + HexValue(s[2]).value] + rest)
    else
      match Unescape(s[1..])
      case None => None
      case Some(rest) => Some(Utf8(s[0]) + rest)
  }

  /** Length of the UTF-8 sequence a leading octet announces, 0 for an octet
      that cannot lead one. */
  function SequenceLength(lead: Byte): nat {
    if lead < 0x80 then 1
    else if 0xC2 <= lead < 0xE0 then 2
    else if 0xE0 <= lead < 0xF0 then 3
    else if 0xF0 <= lead < 0xF5 then 4
    else 0
  }

  predicate Continuation(b: Byte) {
    0x80 <= b < 0xC0
  }

  /** A scalar value: a code point that is not a surrogate. */
  predicate IsScalar(n: int) {
    0 <= n < 0xD800 || 0xE000 <= n < 0x110000
  }

  /** Smallest code point that needs a sequence of `len` octets; anything
      below it in that length is an overlong form and is refused. */
  function Shortest(len: nat): nat {
    if len <= 1 then 0 else if len == 2 then 0x80 else if len == 3 then 0x800 else 0x10000
  }

  /** The code point of one complete UTF-8 sequence, None when malformed. */
  function DecodeSequence(bs: seq<Byte>): Option<char>
    requires 1 <= |bs| <= 4
  {
    var b: seq<int> := bs;
    var n :=
      if |b| == 1 then b[0]
      else if |b| == 2 then (b[0] - 0xC0) * 64 + (b[1] - 0x80)
      else if |b| == 3 then (b[0] - 0xE0) * 4096 + (b[1] - 0x80) * 64 + (b[2] - 0x80)
      else (b[0] - 0xF0) * 262144 + (b[1] - 0x80) * 4096 + (b[2] - 0x80) * 64 + (b[3] - 0x80);
    if (forall i | 1 <= i < |bs| :: Continuation(bs[i])) && Shortest(|bs|) <= n && IsScalar(n)
    then Some(n as char)
    else None
  }

  /** UTF-8 decoding of a whole octet string, None when malformed. */
  function Utf8Decode(bs: seq<Byte>): Option<string>
    decreases |bs|
  {
    if bs == [] then Some([])
    else
      var len := SequenceLength(bs[0]);
      if len == 0 || |bs| < len then None
      else
        match DecodeSequence(bs[..len])
        case None => None
        case Some(c) =>
          match Utf8Decode(bs[len..])
          case None => None
          case Some(rest) => Some([c] + rest)
  }

  /** `decodeURIComponent(s)`: percent-decoding followed by UTF-8 decoding. */
  function Decode(s: string): Option<string> {
    match Unescape(s)
    case None => None
    case Some(bs) => Utf8Decode(bs)
  }

  // ---- Round trip: decoding an encoded component gives the component back.

  lemma Utf8OfChar(c: char)
    ensures var bs := Utf8(c);
      SequenceLength(bs[0]) == |bs| && DecodeSequence(bs) == Some(c)
  {
    var n := c as int;
    if n < 0x80 {
    } else if n < 0x800 {
      Utf8OfTwoOctetChar(c);
    } else if n < 0x10000 {
      Utf8OfThreeOctetChar(c);
    } else {
      Utf8OfFourOctetChar(c);
    }
  }

  lemma Utf8OfTwoOctetChar(c: char)
    requires 0x80 <= c as int < 0x800
    ensures var bs := Utf8(c);
      SequenceLength(bs[0]) == |bs| && DecodeSequence(bs) == Some(c)
  {
    var n := c as int;
    var bs: seq<int> := Utf8(c);
    assert bs[0] - 0xC0 == n / 64;
  }

  lemma Utf8OfThreeOctetChar(c: char)
    requires 0x800 <= c as int < 0x10000
    ensures var bs := Utf8(c);
      SequenceLength(bs[0]) == |bs| && DecodeSequence(bs) == Some(c)
  {
    var n := c as int;
    var bs: seq<int> := Utf8(c);
    var q := n / 64;
    assert n / 4096 == q / 64;
    assert (bs[0] - 0xE0) * 4096 + (bs[1] - 0x80) * 64 == q * 64;
  }

  lemma Utf8OfFourOctetChar(c: char)
    requires 0x10000 <= c as int
    ensures var bs := Utf8(c);
      SequenceLength(bs[0]) == |bs| && DecodeSequence(bs) == Some(c)
  {
    var n := c as int;
    var bs: seq<int> := Utf8(c);
    var q := n / 64;
    var q2 := q / 64;
    assert n / 4096 == q2;
    assert n / 262144 == q2 / 64;
    assert (bs[0] - 0xF0) * 262144 + (bs[1] - 0x80) * 4096 == q2 * 4096;
    assert (bs[0] - 0xF0) * 262144 + (bs[1] - 0x80) * 4096 + (bs[2] - 0x80) * 64 == q * 64;
  }

  lemma {:induction false} Utf8RoundTrip(s: string)
    ensures Utf8Decode(Utf8Encode(s)) == Some(s)
  {
    if s != [] {
      var bs := Utf8Encode(s);
      var head := Utf8(s[0]);
      Utf8OfChar(s[0]);
      assert bs == head + Utf8Encode(s[1..]);
      assert bs[0] == head[0];
      assert bs[..|head|] == head;
      assert bs[|head|..] == Utf8Encode(s[1..]);
      Utf8RoundTrip(s[1..]);
      assert SequenceLength(bs[0]) == |head|;
      assert DecodeSequence(bs[..|head|]) == Some(s[0]);
      assert Utf8Decode(bs) == Some([s[0]] + s[1..]);
      assert [s[0]] + s[1..] == s;
    }
  }

  /** Octets put in front of a decoding that succeeded. */
  function Prefixed(bs: seq<Byte>, o: Option<seq<Byte>>): Option<seq<Byte>> {
    match o
    case None => None
    case Some(tail) => Some(bs + tail)
  }

  lemma PrefixedJoin(a: seq<Byte>, b: seq<Byte>, o: Option<seq<Byte>>)
    ensures Prefixed(a, Prefixed(b, o)) == Prefixed(a + b, o)
  {
    if o.Some? {
      assert a + (b + o.value) == (a + b) + o.value;
    }
  }

  /** One "%XX" triple unescapes to its octet. */
  lemma UnescapeEscape(b: Byte, rest: string)
    ensures Unescape(Escape(b) + rest) == Prefixed([b], Unescape(rest))
  {
    var s := Escape(b) + rest;
    var e := Escape(b);
    assert s[0] == '%' && s[1] == e[1] && s[2] == e[2];
    assert HexValue(s[1]).value * 16 + HexValue(s[2]).value == b;
    assert s[3..] == rest;
  }

  lemma {:induction false} UnescapeEscaped(bs: seq<Byte>, rest: string)
    ensures Unescape(EscapeAll(bs) + rest) == Prefixed(bs, Unescape(rest))
  {
    if bs == [] {
      assert EscapeAll(bs) + rest == rest;
      var o := Unescape(rest);
      if o.Some? {
        assert bs + o.value == o.value;
      }
    } else {
      var later := EscapeAll(bs[1..]) + rest;
      assert EscapeAll(bs) + rest == Escape(bs[0]) + later;
      UnescapeEscape(bs[0], later);
      UnescapeEscaped(bs[1..], rest);
      PrefixedJoin([bs[0]], bs[1..], Unescape(rest));
      assert [bs[0]] + bs[1..] == bs;
    }
  }

  /** A string of unreserved characters encodes as itself. */
  lemma {:induction false} EncodeUnreserved(s: string)
    requires forall i | 0 <= i < |s| :: Unreserved(s[i])
    ensures EncodeURIComponent(s) == s
  {
    if s != [] {
      EncodeUnreserved(s[1..]);
      assert [s[0]] + s[1..] == s;
    }
  }

  lemma {:induction false} UnescapeEncoded(s: string)
    ensures Unescape(EncodeURIComponent(s)) == Some(Utf8Encode(s))
  {
    if s != [] {
      var c := s[0];
      UnescapeEncoded(s[1..]);
      if Unreserved(c) {
        var e := EncodeURIComponent(s);
        assert e[0] == c && e[1..] == EncodeURIComponent(s[1..]);
      } else {
        UnescapeEscaped(Utf8(c), EncodeURIComponent(s[1..]));
      }
    }
  }

  /** decodeURIComponent(encodeURIComponent(s)) == s: the encoding loses
      nothing, so two different components never encode alike. */
  lemma {:induction false} DecodeEncode(s: string)
    ensures Decode(EncodeURIComponent(s)) == Some(s)
  {
    UnescapeEncoded(s);
    Utf8RoundTrip(s);
  }

  lemma EncodeInjective(s: string, t: string)
    requires EncodeURIComponent(s) == EncodeURIComponent(t)
    ensures s == t
  {
    DecodeEncode(s);
    DecodeEncode(t);
  }
}
