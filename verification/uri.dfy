/**
 * Percent-decoding of a URI component, as `decodeURIComponent` does it
 * (section 2.1 of RFC 3986 for the escapes, UTF-8 as in section 3 of
 * RFC 3629 for the octets they stand for), with `encodeURIComponent` as its
 * partner. Decoding fails, where the browser throws a `URIError`, on an
 * escape that is cut short or not hexadecimal and on octets that are not
 * well-formed UTF-8: a stray continuation octet, a sequence cut short, an
 * overlong form, a surrogate or a code point above U+10FFFF.
 */
module UriComponent {
  import opened Outcomes

  /** An octet, the value of one `%XY` escape. */
  type Octet = b: nat | b < 256

  predicate IsHexDigit(c: char)
  {
    '0' <= c <= '9' || 'a' <= c <= 'f' || 'A' <= c <= 'F'
  }

  function HexValue(c: char): (v: nat)
    requires IsHexDigit(c)
    ensures v < 16
  {
    if '0' <= c <= '9' then c as int - '0' as int
    else if 'a' <= c <= 'f' then c as int - 'a' as int + 10
    else c as int - 'A' as int + 10
  }

  /** The upper-case hexadecimal digit the encoder writes for `d`. */
  function HexChar(d: nat): (c: char)
    requires d < 16
    ensures IsHexDigit(c) && HexValue(c) == d
  {
    if d < 10 then ('0' as int + d) as char else ('A' as int + d - 10) as char
  }

  /** Position `k` of `s` starts a complete escape `%XY`. */
  predicate EscapeAt(s: string, k: nat)
  {
    k + 2 < |s| && s[k] == '%' && IsHexDigit(s[k + 1]) && IsHexDigit(s[k + 2])
  }

  /** The octet of the escape at `k`. */
  function OctetAt(s: string, k: nat): Octet
    requires EscapeAt(s, k)
  {
    HexValue(s[k + 1]) * 16 + HexValue(s[k + 2])
  }

  /** `s` starts with `n` complete escapes in a row. */
  predicate EscapesFrom(s: string, n: nat)
    ensures EscapesFrom(s, n) ==> 3 * n <= |s|
    decreases n
  {
    n == 0 || (EscapeAt(s, 0) && EscapesFrom(s[3..], n - 1))
  }

  /** The octets of the first `n` escapes of `s`. */
  function OctetsFrom(s: string, n: nat): (bytes: seq<Octet>)
    requires EscapesFrom(s, n)
    ensures |bytes| == n
    decreases n
  {
    if n == 0 then [] else [OctetAt(s, 0)] + OctetsFrom(s[3..], n - 1)
  }

  /**
   * How many octets a UTF-8 sequence with this first octet has, 0 when the
   * octet cannot start a sequence (a continuation octet, or five or more
   * leading one bits).
   */
  function SequenceLength(lead: Octet): (n: nat)
    ensures n <= 4
  {
    if lead < 0x80 then 1
    else if lead < 0xC0 then 0
    else if lead < 0xE0 then 2
    else if lead < 0xF0 then 3
    else if lead < 0xF8 then 4
    else 0
  }

  predicate IsContinuation(b: Octet)
  {
    0x80 <= b < 0xC0
  }

  /** The smallest code point that needs `n` octets: anything below is an overlong form. */
  function SmallestOfLength(n: nat): nat
    requires 2 <= n <= 4
  {
    if n == 2 then 0x80 else if n == 3 then 0x800 else 0x10000
  }

  /** The bits of the first octet of an `n`-octet sequence. */
  function LeadBase(n: nat): nat
    requires 2 <= n <= 4
  {
    if n == 2 then 0xC0 else if n == 3 then 0xE0 else 0xF0
  }

  /** The code point a lead octet and its continuation octets spell, six bits per continuation. */
  function SequenceValue(bytes: seq<Octet>): int
    requires 2 <= |bytes| <= 4
  {
    var n := |bytes|;
    if n == 2 then (bytes[0] as int - LeadBase(2)) * 64 + (bytes[1] as int - 0x80)
    else if n == 3 then ((bytes[0] as int - LeadBase(3)) * 64 + (bytes[1] as int - 0x80)) * 64 + (bytes[2] as int - 0x80)
    else (((bytes[0] as int - LeadBase(4)) * 64 + (bytes[1] as int - 0x80)) * 64 + (bytes[2] as int - 0x80)) * 64 + (bytes[3] as int - 0x80)
  }

  /** A Unicode scalar value: a code point that is not a surrogate. */
  predicate IsScalar(v: int)
  {
    0 <= v < 0xD800 || 0xE000 <= v < 0x110000
  }

  /**
   * Decode the escape sequence at the start of `s` (which starts with `%`):
   * the character and how many characters of `s` it took, or `None` where
   * `decodeURIComponent` throws.
   */
  function DecodeEscape(s: string): (r: Option<(char, nat)>)
    requires |s| > 0 && s[0] == '%'
    ensures r.Some? ==> var n := r.value.1 / 3; r.value.1 == 3 * n && 1 <= n <= 4 && EscapesFrom(s, n)
    ensures !EscapeAt(s, 0) ==> r.None?
  {
    if !EscapeAt(s, 0) then None
    else
      var lead := OctetAt(s, 0);
      var n := SequenceLength(lead);
      if n == 1 then
        assert EscapesFrom(s, 1) by { assert EscapesFrom(s[3..], 0); }
        Some((lead as char, 3))
      else if n == 0 || !EscapesFrom(s, n) then None
      else
        var bytes := OctetsFrom(s, n);
        var v := SequenceValue(bytes);
        if (forall j :: 1 <= j < n ==> IsContinuation(bytes[j])) && SmallestOfLength(n) <= v && IsScalar(v) then
          Some((v as char, 3 * n))
        else None
  }

  /** `decodeURIComponent(s)`, `None` where it throws a `URIError`. */
  function Decode(s: string): (r: Option<string>)
    ensures r.Some? ==> |r.value| <= |s|
    ensures r.Some? && s != [] ==> r.value != [] && (s[0] != '%' ==> r.value[0] == s[0])
    decreases |s|
  {
    if s == [] then Some([])
    else if s[0] != '%' then
      match Decode(s[1..])
      case None => None
      case Some(t) => Some([s[0]] + t)
    else
      match DecodeEscape(s)
      case None => None
      case Some((c, used)) =>
        match Decode(s[used..])
        case None => None
        case Some(t) => Some([c] + t)
  }

  /** Text without `%` decodes to itself. */
  lemma {:induction false} DecodePlain(s: string)
    requires forall i :: 0 <= i < |s| ==> s[i] != '%'
    ensures Decode(s) == Some(s)
    decreases |s|
  {
    if s != [] {
      DecodePlain(s[1..]);
      assert [s[0]] + s[1..] == s;
    }
  }

  /** A `%` with fewer than two hexadecimal digits after it makes decoding fail. */
  lemma {:induction false} DecodeRejectsBrokenEscape(s: string, k: nat)
    requires k < |s| && s[k] == '%' && !EscapeAt(s, k)
    requires forall i :: 0 <= i < k ==> s[i] != '%'
    ensures Decode(s) == None
    decreases k
  {
    if k > 0 {
      assert !EscapeAt(s[1..], k - 1);
      DecodeRejectsBrokenEscape(s[1..], k - 1);
    }
  }

  /** An escaped continuation octet cannot start a character: decoding fails. */
  lemma {:induction false} DecodeRejectsStrayContinuation(s: string)
    requires EscapeAt(s, 0) && IsContinuation(OctetAt(s, 0))
    ensures Decode(s) == None
  {
  }

  /** An escaped surrogate (`%ED%A0%80` to `%ED%BF%BF`) makes decoding fail. */
  lemma {:induction false} DecodeRejectsSurrogate(s: string)
    requires EscapeAt(s, 0) && EscapeAt(s, 3) && EscapeAt(s, 6)
    requires OctetAt(s, 0) == 0xED && 0xA0 <= OctetAt(s, 3) < 0xC0 && IsContinuation(OctetAt(s, 6))
    ensures Decode(s) == None
  {
    assert EscapesFrom(s, 3) by {
      assert s[3..][3..] == s[6..];
      assert EscapesFrom(s[6..][3..], 0);
    }
    var bytes := OctetsFrom(s, 3);
    assert bytes[0] == OctetAt(s, 0);
    assert bytes[1] == OctetAt(s[3..], 0) == OctetAt(s, 3);
    assert bytes[2] == OctetAt(s[3..][3..], 0) == OctetAt(s, 6);
    assert 0xD800 <= SequenceValue(bytes) < 0xE000;
  }

  /** A two-octet overlong form (`%C0` or `%C1` as lead, as in `%C0%80`) makes decoding fail. */
  lemma {:induction false} DecodeRejectsOverlongPair(s: string)
    requires EscapeAt(s, 0) && EscapeAt(s, 3)
    requires OctetAt(s, 0) == 0xC0 || OctetAt(s, 0) == 0xC1
    ensures Decode(s) == None
  {
    assert EscapesFrom(s, 2) by {
      assert EscapesFrom(s[3..][3..], 0);
    }
    var bytes := OctetsFrom(s, 2);
    assert bytes[0] == OctetAt(s, 0);
    assert bytes[1] == OctetAt(s[3..], 0) == OctetAt(s, 3);
    assert IsContinuation(bytes[1]) ==> SequenceValue(bytes) < SmallestOfLength(2);
  }

  /** A three-octet overlong form (`%E0` then `%80` to `%9F`, as in `%E0%80%80`) makes decoding fail. */
  lemma {:induction false} DecodeRejectsOverlongTriple(s: string)
    requires EscapeAt(s, 0) && EscapeAt(s, 3) && EscapeAt(s, 6)
    requires OctetAt(s, 0) == 0xE0 && 0x80 <= OctetAt(s, 3) < 0xA0
    ensures Decode(s) == None
  {
    assert EscapesFrom(s, 3) by {
      assert s[3..][3..] == s[6..];
      assert EscapesFrom(s[6..][3..], 0);
    }
    var bytes := OctetsFrom(s, 3);
    assert bytes[0] == OctetAt(s, 0);
    assert bytes[1] == OctetAt(s[3..], 0) == OctetAt(s, 3);
    assert bytes[2] == OctetAt(s[3..][3..], 0) == OctetAt(s, 6);
    assert IsContinuation(bytes[2]) ==> SequenceValue(bytes) < SmallestOfLength(3);
  }

  /** A four-octet overlong form (`%F0` then `%80` to `%8F`, as in `%F0%80%80%80`) makes decoding fail. */
  lemma {:induction false} DecodeRejectsOverlongQuad(s: string)
    requires EscapeAt(s, 0) && EscapeAt(s, 3) && EscapeAt(s, 6) && EscapeAt(s, 9)
    requires OctetAt(s, 0) == 0xF0 && 0x80 <= OctetAt(s, 3) < 0x90
    ensures Decode(s) == None
  {
    var bytes := FourOctets(s);
    assert IsContinuation(bytes[2]) && IsContinuation(bytes[3]) ==> SequenceValue(bytes) < SmallestOfLength(4);
  }

  /** A code point above U+10FFFF (`%F4` then `%90` or more, as in `%F4%90%80%80`, or a lead `%F5` to `%F7`) makes decoding fail. */
  lemma {:induction false} DecodeRejectsAboveMax(s: string)
    requires EscapeAt(s, 0) && EscapeAt(s, 3) && EscapeAt(s, 6) && EscapeAt(s, 9)
    requires (OctetAt(s, 0) == 0xF4 && 0x90 <= OctetAt(s, 3)) || 0xF5 <= OctetAt(s, 0) < 0xF8
    ensures Decode(s) == None
  {
    var bytes := FourOctets(s);
    assert IsContinuation(bytes[1]) && IsContinuation(bytes[2]) && IsContinuation(bytes[3]) ==>
      SequenceValue(bytes) >= 0x110000;
  }

  /** The overlong `%C0%80` and the out-of-range `%F4%90%80%80` both make decoding fail. */
  lemma {:induction false} DecodeRejectsExamples()
    ensures Decode("%C0%80") == None
    ensures Decode("%F4%90%80%80") == None
  {
    var overlong := "%C0%80";
    assert EscapeAt(overlong, 0) && EscapeAt(overlong, 3);
    DecodeRejectsOverlongPair(overlong);
    var tooLarge := "%F4%90%80%80";
    assert EscapeAt(tooLarge, 0) && EscapeAt(tooLarge, 3) && EscapeAt(tooLarge, 6) && EscapeAt(tooLarge, 9);
    DecodeRejectsAboveMax(tooLarge);
  }

  /** Four escapes in a row at the start of `s`, and their octets. */
  lemma {:induction false} FourOctets(s: string) returns (bytes: seq<Octet>)
    requires EscapeAt(s, 0) && EscapeAt(s, 3) && EscapeAt(s, 6) && EscapeAt(s, 9)
    ensures EscapesFrom(s, 4) && bytes == OctetsFrom(s, 4)
    ensures bytes == [OctetAt(s, 0), OctetAt(s, 3), OctetAt(s, 6), OctetAt(s, 9)]
  {
    assert EscapesFrom(s, 4) by {
      assert s[3..][3..] == s[6..];
      assert s[6..][3..] == s[9..];
      assert EscapesFrom(s[9..][3..], 0);
    }
    bytes := OctetsFrom(s, 4);
    assert bytes[0] == OctetAt(s, 0);
    assert bytes[1] == OctetAt(s[3..], 0) == OctetAt(s, 3);
    assert bytes[2] == OctetAt(s[3..][3..], 0) == OctetAt(s, 6);
    assert bytes[3] == OctetAt(s[3..][3..][3..], 0) == OctetAt(s, 9);
  }

  /** The characters `encodeURIComponent` leaves as they are. */
  predicate Unreserved(c: char)
  {
    'A' <= c <= 'Z' || 'a' <= c <= 'z' || '0' <= c <= '9' ||
    c == '-' || c == '_' || c == '.' || c == '!' || c == '~' || c == '*' || c == '\'' || c == '(' || c == ')'
  }

  /** The UTF-8 octets of a character, shortest form. */
  function Utf8(c: char): (bytes: seq<Octet>)
    ensures 1 <= |bytes| <= 4
    ensures |bytes| == 1 <==> c as int < 0x80
  {
    var v := c as int;
    var q1 := v / 64;
    var q2 := q1 / 64;
    var q3 := q2 / 64;
    if v < 0x80 then [v]
    else if v < 0x800 then [0xC0 + q1, 0x80 + v % 64]
    else if v < 0x10000 then [0xE0 + q2, 0x80 + q1 % 64, 0x80 + v % 64]
    else [0xF0 + q3, 0x80 + q2 % 64, 0x80 + q1 % 64, 0x80 + v % 64]
  }

  /** `%XY` for each octet, upper-case hexadecimal. */
  function Escapes(bytes: seq<Octet>): (s: string)
    ensures |s| == 3 * |bytes|
    ensures forall i :: 0 <= i < |s| ==> s[i] == '%' || IsHexDigit(s[i])
  {
    if bytes == [] then []
    else ['%', HexChar(bytes[0] / 16), HexChar(bytes[0] % 16)] + Escapes(bytes[1..])
  }

  /** The escapes of some octets, whatever follows them, read back as those octets. */
  lemma {:induction false} EscapesReadBack(bytes: seq<Octet>, rest: string)
    ensures EscapesFrom(Escapes(bytes) + rest, |bytes|)
    ensures OctetsFrom(Escapes(bytes) + rest, |bytes|) == bytes
    decreases |bytes|
  {
    if bytes != [] {
      var s := Escapes(bytes) + rest;
      EscapesReadBack(bytes[1..], rest);
      assert s[3..] == Escapes(bytes[1..]) + rest;
      assert EscapeAt(s, 0) && OctetAt(s, 0) == bytes[0];
      assert [bytes[0]] + bytes[1..] == bytes;
    }
  }

  /** `encodeURIComponent(s)`: unreserved characters kept, every other one as its escaped UTF-8 octets. */
  function Encode(s: string): (e: string)
    decreases |s|
  {
    if s == [] then []
    else (if Unreserved(s[0]) then [s[0]] else Escapes(Utf8(s[0]))) + Encode(s[1..])
  }

  lemma {:induction false} SplitSixBits(x: int)
    ensures x == (x / 64) * 64 + x % 64 && 0 <= x % 64 < 64
  {
  }

  /** The continuation octets of a character decode back to its code point. */
  lemma {:induction false} Utf8Value(c: char)
    requires c as int >= 0x80
    ensures SequenceLength(Utf8(c)[0]) == |Utf8(c)|
    ensures forall j :: 1 <= j < |Utf8(c)| ==> IsContinuation(Utf8(c)[j])
    ensures SmallestOfLength(|Utf8(c)|) <= c as int && SequenceValue(Utf8(c)) == c as int
  {
    var v := c as int;
    SplitSixBits(v);
    SplitSixBits(v / 64);
    SplitSixBits(v / 64 / 64);
  }

  /** Decoding the escapes of one character's octets gives back the character. */
  lemma {:induction false} DecodeEscapedChar(c: char, rest: string)
    ensures |Escapes(Utf8(c)) + rest| > 0 && (Escapes(Utf8(c)) + rest)[0] == '%'
    ensures DecodeEscape(Escapes(Utf8(c)) + rest) == Some((c, 3 * |Utf8(c)|))
  {
    var bytes := Utf8(c);
    var s := Escapes(bytes) + rest;
    EscapesReadBack(bytes, rest);
    assert EscapeAt(s, 0) && OctetAt(s, 0) == bytes[0] by {
      assert OctetsFrom(s, |bytes|)[0] == OctetAt(s, 0);
    }
    if |bytes| > 1 {
      Utf8Value(c);
      assert IsScalar(c as int);
      assert (c as int) as char == c;
    }
  }

  /** Decoding undoes encoding: `decodeURIComponent(encodeURIComponent(s)) == s`. */
  lemma {:induction false} DecodeEncode(s: string)
    ensures Decode(Encode(s)) == Some(s)
    decreases |s|
  {
    if s != [] {
      var c := s[0];
      var tail := Encode(s[1..]);
      DecodeEncode(s[1..]);
      if Unreserved(c) {
        assert ([c] + tail)[1..] == tail;
      } else {
        var e := Escapes(Utf8(c));
        DecodeEscapedChar(c, tail);
        assert (e + tail)[|e|..] == tail;
      }
      assert [c] + s[1..] == s;
    }
  }

  /** The encoder's output holds no character that ends a query value or stands for a space. */
  lemma {:induction false} EncodeHasNoDelimiters(s: string)
    ensures forall i :: 0 <= i < |Encode(s)| ==> Encode(s)[i] != '&' && Encode(s)[i] != '#' && Encode(s)[i] != '+'
    decreases |s|
  {
    if s != [] {
      EncodeHasNoDelimiters(s[1..]);
    }
  }
}
