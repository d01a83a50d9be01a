/**
 * `decodeURIComponent` as ECMAScript defines it (the Decode operation with
 * an empty reserved set): every `%XX` escape is read as a byte, bytes of
 * 0x80 and above must form one well-formed UTF-8 sequence, and any other
 * use of `%` throws a URIError, modelled here as None. `encodeURIComponent`
 * is modelled as its partner, so that the round trip can be stated.
 */
module UriComponent {
  import opened Wrappers

  predicate IsHexDigit(c: char) {
    '0' <= c <= '9' || 'a' <= c <= 'f' || 'A' <= c <= 'F'
  }

  function HexValue(c: char): (v: nat)
    requires IsHexDigit(c)
    ensures v < 16
  {
    if '0' <= c <= '9' then (c as int) - ('0' as int)
    else if 'a' <= c <= 'f' then (c as int) - ('a' as int) + 10
    else (c as int) - ('A' as int) + 10
  }

  /** The upper-case hexadecimal digit `encodeURIComponent` writes for `v`. */
  function HexDigit(v: nat): (c: char)
    requires v < 16
    ensures IsHexDigit(c) && HexValue(c) == v
  {
    if v < 10 then (('0' as int) + v) as char else (('A' as int) + v - 10) as char
  }

  predicate IsScalarValue(v: int) {
    0 <= v < 0xD800 || 0xE000 <= v < 0x11_0000
  }

  predicate IsContinuation(b: nat) {
    0x80 <= b < 0xC0
  }

  /** The number of leading one bits of a byte; it gives the length of the UTF-8 sequence the byte starts. */
  function LeadingOnes(b: nat): (n: nat)
    requires b < 256
    ensures n <= 8
  {
    if b < 0x80 then 0
    else if b < 0xC0 then 1
    else if b < 0xE0 then 2
    else if b < 0xF0 then 3
    else if b < 0xF8 then 4
    else if b < 0xFC then 5
    else if b < 0xFE then 6
    else if b < 0xFF then 7
    else 8
  }

  /** The byte of a `%XX` escape at the front of `s`, or None when `s` does not start with one. */
  function EscapedByte(s: string): (r: Option<nat>)
    ensures r.Some? ==> |s| >= 3 && s[0] == '%' && r.value < 256
  {
    if |s| >= 3 && s[0] == '%' && IsHexDigit(s[1]) && IsHexDigit(s[2])
    then Some(16 * HexValue(s[1]) + HexValue(s[2]))
    else None
  }

  /** The bytes of `n` consecutive `%XX` escapes at the front of `s`. */
  function EscapedBytes(s: string, n: nat): (r: Option<seq<nat>>)
    ensures r.Some? ==> |r.value| == n && 3 * n <= |s|
    ensures r.Some? ==> forall i :: 0 <= i < n ==> r.value[i] < 256
    ensures r.Some? && n > 0 ==> EscapedByte(s) == Some(r.value[0])
    decreases n
  {
    if n == 0 then Some([])
    else
      var b :- EscapedByte(s);
      var rest :- EscapedBytes(s[3..], n - 1);
      Some([b] + rest)
  }

  /**
   * The code point a UTF-8 sequence of two to four bytes encodes, or None when
   * the bytes are not a valid encoding: a byte after the first is not a
   * continuation byte, the form is overlong, or the value is a surrogate or
   * lies beyond U+10FFFF.
   */
  function Utf8Decode(bytes: seq<nat>): (r: Option<nat>)
    requires forall i :: 0 <= i < |bytes| ==> bytes[i] < 256
    requires 2 <= |bytes| <= 4 && LeadingOnes(bytes[0]) == |bytes|
    ensures r.Some? ==> IsScalarValue(r.value) && r.value >= 0x80
  {
    if !(forall i | 1 <= i < |bytes| :: IsContinuation(bytes[i])) then None
    else if |bytes| == 2 then
      var v := (bytes[0] - 0xC0) * 64 + (bytes[1] - 0x80);
      if v >= 0x80 then Some(v) else None
    else if |bytes| == 3 then
      var v := ((bytes[0] - 0xE0) * 64 + (bytes[1] - 0x80)) * 64 + (bytes[2] - 0x80);
      if v >= 0x800 && !(0xD800 <= v < 0xE000) then Some(v) else None
    else
      var v := (((bytes[0] - 0xF0) * 64 + (bytes[1] - 0x80)) * 64 + (bytes[2] - 0x80)) * 64 + (bytes[3] - 0x80);
      if 0x1_0000 <= v < 0x11_0000 then Some(v) else None
  }

  /**
   * Only the shortest form is accepted: a sequence that decodes is the UTF-8
   * encoding of its value, so overlong forms give None.
   */
  lemma Utf8DecodeCanonical(bytes: seq<nat>)
    requires forall i :: 0 <= i < |bytes| ==> bytes[i] < 256
    requires 2 <= |bytes| <= 4 && LeadingOnes(bytes[0]) == |bytes|
    ensures Utf8Decode(bytes).Some? ==> Utf8Encode(Utf8Decode(bytes).value) == bytes
  {
    if Utf8Decode(bytes).Some? {
      var v := Utf8Decode(bytes).value;
      if |bytes| == 2 {
        Utf8Canonical2(bytes[0], bytes[1], v);
        assert bytes == [bytes[0], bytes[1]];
      } else if |bytes| == 3 {
        Utf8Canonical3(bytes[0], bytes[1], bytes[2], v);
        assert bytes == [bytes[0], bytes[1], bytes[2]];
      } else {
        Utf8Canonical4(bytes[0], bytes[1], bytes[2], bytes[3], v);
        assert bytes == [bytes[0], bytes[1], bytes[2], bytes[3]];
      }
    }
  }

  lemma Utf8Canonical2(b0: nat, b1: nat, v: nat)
    requires 0xC0 <= b0 < 0xE0 && IsContinuation(b1)
    requires v == (b0 - 0xC0) * 64 + (b1 - 0x80) && 0x80 <= v
    ensures Utf8Encode(v) == [b0, b1]
  {
    Base64Digit(b0 - 0xC0, b1 - 0x80);
  }

  lemma Utf8Canonical3(b0: nat, b1: nat, b2: nat, v: nat)
    requires 0xE0 <= b0 < 0xF0 && IsContinuation(b1) && IsContinuation(b2)
    requires v == ((b0 - 0xE0) * 64 + (b1 - 0x80)) * 64 + (b2 - 0x80)
    requires 0x800 <= v && !(0xD800 <= v < 0xE000)
    ensures Utf8Encode(v) == [b0, b1, b2]
  {
    var v1 := (b0 - 0xE0) * 64 + (b1 - 0x80);
    Base64Digit(v1, b2 - 0x80);
    Base64Digit(b0 - 0xE0, b1 - 0x80);
  }

  lemma Utf8Canonical4(b0: nat, b1: nat, b2: nat, b3: nat, v: nat)
    requires 0xF0 <= b0 < 0xF8 && IsContinuation(b1) && IsContinuation(b2) && IsContinuation(b3)
    requires v == (((b0 - 0xF0) * 64 + (b1 - 0x80)) * 64 + (b2 - 0x80)) * 64 + (b3 - 0x80)
    requires 0x1_0000 <= v < 0x11_0000
    ensures Utf8Encode(v) == [b0, b1, b2, b3]
  {
    var v2 := (b0 - 0xF0) * 64 + (b1 - 0x80);
    var v1 := v2 * 64 + (b2 - 0x80);
    Base64Digit(v1, b3 - 0x80);
    Base64Digit(v2, b2 - 0x80);
    Base64Digit(b0 - 0xF0, b1 - 0x80);
  }

  /** Splitting `q * 64 + d` back into its quotient and its last six bits. */
  lemma Base64Digit(q: nat, d: nat)
    requires d < 64
    ensures (q * 64 + d) / 64 == q && (q * 64 + d) % 64 == d
  {
  }

  /** One decoded character and the number of input characters it was read from. */
  datatype Decoded = Decoded(ch: char, width: nat)

  /** Decodes the character at the front of `s`. */
  function DecodeUnit(s: string): (r: Option<Decoded>)
    requires |s| >= 1
    ensures r.Some? ==> 1 <= r.value.width <= |s|
    ensures s[0] != '%' ==> r == Some(Decoded(s[0], 1))
  {
    if s[0] != '%' then Some(Decoded(s[0], 1))
    else
      var b :- EscapedByte(s);
      var n := LeadingOnes(b);
      if n == 0 then Some(Decoded(b as char, 3))
      else if n == 1 || n > 4 then None
      else
        var bytes :- EscapedBytes(s, n);
        var v :- Utf8Decode(bytes);
        Some(Decoded(v as char, 3 * n))
  }

  /** `decodeURIComponent(s)`; None stands for the URIError it throws on a malformed escape. */
  function DecodeUriComponent(s: string): (r: Option<string>)
    ensures r.Some? ==> |r.value| <= |s|
    decreases |s|
  {
    if |s| == 0 then Some("")
    else
      var u :- DecodeUnit(s);
      var rest :- DecodeUriComponent(s[u.width..]);
      Some([u.ch] + rest)
  }

  /** The characters `encodeURIComponent` leaves as they are. */
  predicate IsUnreserved(c: char) {
    'A' <= c <= 'Z' || 'a' <= c <= 'z' || '0' <= c <= '9' || c in "-_.!~*'()"
  }

  /** The UTF-8 encoding of a Unicode scalar value. */
  function Utf8Encode(v: nat): (bytes: seq<nat>)
    requires IsScalarValue(v)
    ensures 1 <= |bytes| <= 4
    ensures forall i :: 0 <= i < |bytes| ==> bytes[i] < 256
  {
    var r0, v1 := v % 64, v / 64;
    var r1, v2 := v1 % 64, v1 / 64;
    var r2, v3 := v2 % 64, v2 / 64;
    if v < 0x80 then [v]
    else if v < 0x800 then [0xC0 + v1, 0x80 + r0]
    else if v < 0x1_0000 then [0xE0 + v2, 0x80 + r1, 0x80 + r0]
    else [0xF0 + v3, 0x80 + r2, 0x80 + r1, 0x80 + r0]
  }

  function PercentEncode(bytes: seq<nat>): (s: string)
    requires forall i :: 0 <= i < |bytes| ==> bytes[i] < 256
    ensures |s| == 3 * |bytes|
  {
    if |bytes| == 0 then ""
    else ['%', HexDigit(bytes[0] / 16), HexDigit(bytes[0] % 16)] + PercentEncode(bytes[1..])
  }

  function EncodeChar(c: char): string {
    if IsUnreserved(c) then [c] else PercentEncode(Utf8Encode(c as nat))
  }

  /** `encodeURIComponent(s)`. */
  function EncodeUriComponent(s: string): string
  {
    if |s| == 0 then "" else EncodeChar(s[0]) + EncodeUriComponent(s[1..])
  }

  /** A string without `%` decodes to itself. */
  lemma {:induction false} DecodeWithoutPercent(s: string)
    requires '%' !in s
    ensures DecodeUriComponent(s) == Some(s)
    decreases |s|
  {
    if |s| > 0 {
      assert '%' !in s[1..];
      DecodeWithoutPercent(s[1..]);
      assert s == [s[0]] + s[1..];
    }
  }

  lemma DecodeCons(s: string, u: Decoded, t: string)
    requires |s| >= 1 && DecodeUnit(s) == Some(u) && DecodeUriComponent(s[u.width..]) == Some(t)
    ensures DecodeUriComponent(s) == Some([u.ch] + t)
  {
  }

  /** Text without `%` in front of a decodable string decodes to itself followed by that string's decoding. */
  lemma {:induction false} DecodePlainPrefix(a: string, t: string, d: string)
    requires '%' !in a && DecodeUriComponent(t) == Some(d)
    ensures DecodeUriComponent(a + t) == Some(a + d)
    decreases |a|
  {
    if |a| > 0 {
      assert a[0] in a && '%' !in a[1..];
      DecodePlainPrefix(a[1..], t, d);
      HeadConcat(a, t);
      HeadConcat(a, d);
      DecodePlainChar(a[0], a[1..] + t, a[1..] + d);
    } else {
      assert a + t == t && a + d == d;
    }
  }

  /** Taking the first character off the front of a concatenation. */
  lemma HeadConcat(a: string, t: string)
    requires |a| > 0
    ensures a + t == [a[0]] + (a[1..] + t)
  {
  }

  /** A character other than `%` in front of a decodable string passes through. */
  lemma DecodePlainChar(c: char, t: string, d: string)
    requires c != '%' && DecodeUriComponent(t) == Some(d)
    ensures DecodeUriComponent([c] + t) == Some([c] + d)
  {
    var s := [c] + t;
    assert s[1..] == t;
    DecodeCons(s, Decoded(c, 1), d);
  }

  /**
   * A `%` that is not followed by two hexadecimal digits makes the whole
   * decoding throw, whatever comes before it, provided that contains no escape.
   */
  lemma {:induction false} MalformedEscapeThrows(a: string, t: string)
    requires '%' !in a
    requires !(|t| >= 2 && IsHexDigit(t[0]) && IsHexDigit(t[1]))
    ensures DecodeUriComponent(a + "%" + t) == None
    decreases |a|
  {
    var s := a + "%" + t;
    if a == [] {
      assert s == ['%'] + t;
      assert EscapedByte(s) == None;
    } else {
      assert s[1..] == a[1..] + "%" + t;
      MalformedEscapeThrows(a[1..], t);
    }
  }

  /** Upper-case escapes read back as the bytes they were written from. */
  lemma PercentEscapes(bytes: seq<nat>, s: string)
    requires forall i :: 0 <= i < |bytes| ==> bytes[i] < 256
    requires s == PercentEncode(bytes)
    ensures EscapedBytes(s, |bytes|) == Some(bytes)
  {
    EscapedBytesOfPercentEncode(bytes, "");
    assert s + "" == s;
  }

  /** Well-formed hexadecimal escapes still throw when their bytes are an overlong form, here of U+0000. */
  lemma OverlongEscapeThrows()
    ensures DecodeUriComponent("%C0%80") == None
  {
    PercentEscapes([0xC0, 0x80], "%C0%80");
  }

  /** Well-formed hexadecimal escapes still throw when their bytes encode a surrogate, here U+D800. */
  lemma SurrogateEscapeThrows()
    ensures DecodeUriComponent("%ED%A0%80") == None
  {
    PercentEscapes([0xED, 0xA0, 0x80], "%ED%A0%80");
  }

  /** A valid two-byte sequence decodes to its character. */
  lemma TwoByteEscapeDecodes()
    ensures DecodeUriComponent("%C3%A9") == Some("\U{E9}")
  {
    var s := "%C3%A9";
    PercentEscapes([0xC3, 0xA9], s);
    assert Utf8Decode([0xC3, 0xA9]) == Some(0xE9);
    assert DecodeUnit(s) == Some(Decoded('\U{E9}', 6));
    assert s[6..] == "" && DecodeUriComponent(s[6..]) == Some("");
    assert ['\U{E9}'] + "" == "\U{E9}";
  }

  lemma {:induction false} EscapedBytesOfPercentEncode(bytes: seq<nat>, t: string)
    requires forall i :: 0 <= i < |bytes| ==> bytes[i] < 256
    ensures EscapedBytes(PercentEncode(bytes) + t, |bytes|) == Some(bytes)
  {
    if |bytes| > 0 {
      var s := PercentEncode(bytes) + t;
      assert s[3..] == PercentEncode(bytes[1..]) + t;
      EscapedBytesOfPercentEncode(bytes[1..], t);
      assert [bytes[0]] + bytes[1..] == bytes;
    }
  }

  /** UTF-8 decoding undoes UTF-8 encoding for every code point of two bytes or more. */
  lemma Utf8RoundTrip(v: nat)
    requires IsScalarValue(v) && v >= 0x80
    ensures |Utf8Encode(v)| >= 2 && LeadingOnes(Utf8Encode(v)[0]) == |Utf8Encode(v)|
    ensures Utf8Decode(Utf8Encode(v)) == Some(v)
  {
    var r0, v1 := v % 64, v / 64;
    var r1, v2 := v1 % 64, v1 / 64;
    var r2, v3 := v2 % 64, v2 / 64;
    assert v == v1 * 64 + r0 && v1 == v2 * 64 + r1 && v2 == v3 * 64 + r2;
  }

  /** The encoding of one character, followed by anything, decodes to that character first. */
  lemma DecodeUnitOfEncodeChar(c: char, t: string)
    ensures |EncodeChar(c)| >= 1
    ensures DecodeUnit(EncodeChar(c) + t) == Some(Decoded(c, |EncodeChar(c)|))
  {
    var e := EncodeChar(c);
    var s := e + t;
    if !IsUnreserved(c) {
      var bytes := Utf8Encode(c as nat);
      EscapedBytesOfPercentEncode(bytes, t);
      if c as nat >= 0x80 {
        Utf8RoundTrip(c as nat);
      } else {
        assert EscapedByte(s) == Some(c as nat);
      }
    }
  }

  /**
   * A decoding step at a `%` gives `c` exactly when the escapes in front spell
   * the UTF-8 encoding of `c`, in either case of hexadecimal digit, and then it
   * consumes exactly those escapes. So a step over escapes that spell no
   * encoding (a cut-off sequence, a lone continuation byte, a lead byte of
   * 0xF8 or more, an overlong form, a surrogate) throws.
   */
  lemma EscapeRunDecodes(s: string, c: char)
    requires |s| >= 1 && s[0] == '%'
    ensures DecodeUnit(s).Some? && DecodeUnit(s).value.ch == c <==>
      EscapedBytes(s, |Utf8Encode(c as nat)|) == Some(Utf8Encode(c as nat))
    ensures DecodeUnit(s).Some? ==> DecodeUnit(s).value.width == 3 * |Utf8Encode(DecodeUnit(s).value.ch as nat)|
  {
    var bytes := Utf8Encode(c as nat);
    if EscapedBytes(s, |bytes|) == Some(bytes) {
      EscapedUnitDecodes(s, c);
    }
    if DecodeUnit(s).Some? {
      DecodedUnitIsEncoding(s);
    }
  }

  lemma EscapedUnitDecodes(s: string, c: char)
    requires EscapedBytes(s, |Utf8Encode(c as nat)|) == Some(Utf8Encode(c as nat))
    ensures |s| >= 1 && DecodeUnit(s) == Some(Decoded(c, 3 * |Utf8Encode(c as nat)|))
  {
    var bytes := Utf8Encode(c as nat);
    if c as nat >= 0x80 {
      Utf8RoundTrip(c as nat);
    } else {
      assert bytes == [c as nat];
    }
  }

  lemma DecodedUnitIsEncoding(s: string)
    requires |s| >= 1 && s[0] == '%' && DecodeUnit(s).Some?
    ensures var u := DecodeUnit(s).value;
      EscapedBytes(s, |Utf8Encode(u.ch as nat)|) == Some(Utf8Encode(u.ch as nat)) &&
      u.width == 3 * |Utf8Encode(u.ch as nat)|
  {
    assert EscapedByte(s).Some?;
    var b := EscapedByte(s).value;
    if LeadingOnes(b) == 0 {
      assert DecodeUnit(s).value.ch as nat == b;
      assert Utf8Encode(b) == [b];
      assert EscapedBytes(s[3..], 0) == Some([]) && [b] + [] == [b];
      assert EscapedBytes(s, 1) == Some([b]);
    } else {
      var bytes := EscapedBytes(s, LeadingOnes(b)).value;
      Utf8DecodeCanonical(bytes);
    }
  }

  /** A step that throws makes the whole decoding throw. */
  lemma UnitFailureThrows(s: string)
    requires |s| >= 1 && DecodeUnit(s) == None
    ensures DecodeUriComponent(s) == None
  {
  }

  /** `decodeURIComponent(encodeURIComponent(s)) == s` for every string. */
  lemma {:induction false} EncodeDecodeRoundTrip(s: string)
    ensures DecodeUriComponent(EncodeUriComponent(s)) == Some(s)
    decreases |s|
  {
    if |s| > 0 {
      var head, rest := EncodeChar(s[0]), EncodeUriComponent(s[1..]);
      DecodeUnitOfEncodeChar(s[0], rest);
      DropPrefix(head, rest);
      EncodeDecodeRoundTrip(s[1..]);
      DecodeCons(head + rest, Decoded(s[0], |head|), s[1..]);
      HeadConcat(s, []);
      assert s + [] == s;
    }
  }

  /** Dropping the front `a` of `a + b` leaves `b`. */
  lemma DropPrefix(a: string, b: string)
    ensures (a + b)[|a|..] == b
  {
  }
}
