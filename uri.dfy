/** `encodeURIComponent` and `decodeURIComponent` of ECMAScript (section 19.2.6 of
    ECMA-262): percent-encoding of UTF-8 octets (section 2.1 of RFC 3986, UTF-8 as
    in RFC 3629). Characters are Unicode scalar values. */
module Uri {

  import opened Common

  type Byte = b: int | 0 <= b < 256

  predicate IsHexDigit(c: char) {
    '0' <= c <= '9' || 'A' <= c <= 'F' || 'a' <= c <= 'f'
  }

  function HexValue(c: char): (v: nat)
    requires IsHexDigit(c)
    ensures v < 16
  {
    if c <= '9' then c as int - '0' as int
    else if c <= 'F' then c as int - 'A' as int + 10
    else c as int - 'a' as int + 10
  }

  /** The upper-case hexadecimal digit that `encodeURIComponent` emits. */
  function HexDigit(v: nat): (c: char)
    requires v < 16
    ensures IsHexDigit(c) && HexValue(c) == v
  {
    if v < 10 then ('0' as int + v) as char else ('A' as int + v - 10) as char
  }

  /** The characters `encodeURIComponent` leaves as they are:
      letters, digits and - _ . ! ~ * ' ( ) */
  predicate IsUnescaped(c: char) {
    'A' <= c <= 'Z' || 'a' <= c <= 'z' || '0' <= c <= '9'
    || c == '-' || c == '_' || c == '.' || c == '!' || c == '~' || c == '*'
    || c == '\'' || c == '(' || c == ')'
  }

  /** The UTF-8 octets of one code point. */
  function Utf8(c: char): (bs: seq<Byte>)
    ensures 1 <= |bs| <= 4
  {
    var v := c as int;
    if v < 0x80 then [v]
    else if v < 0x800 then [0xC0 + v / 64, 0x80 + v % 64]
    else if v < 0x1_0000 then [0xE0 + v / 4096, 0x80 + v / 64 % 64, 0x80 + v % 64]
    else [0xF0 + v / 262144, 0x80 + v / 4096 % 64, 0x80 + v / 64 % 64, 0x80 + v % 64]
  }

  function Escape(b: Byte): string {
    ['%', HexDigit(b / 16), HexDigit(b % 16)]
  }

  function Escapes(bs: seq<Byte>): (r: string)
    ensures |r| == 3 * |bs|
    decreases |bs|
  {
    if bs == [] then [] else Escape(bs[0]) + Escapes(bs[1..])
  }

  function EncodeChar(c: char): string {
    if IsUnescaped(c) then [c] else Escapes(Utf8(c))
  }

  /** `encodeURIComponent`. */
  function EncodeURIComponent(s: string): string
    decreases |s|
  {
    if s == [] then [] else EncodeChar(s[0]) + EncodeURIComponent(s[1..])
  }

  /** One `%XX` escape at the head of `s`. */
  function ParseEscape(s: string): Option<Byte> {
    if |s| >= 3 && s[0] == '%' && IsHexDigit(s[1]) && IsHexDigit(s[2])
    then Some(HexValue(s[1]) * 16 + HexValue(s[2]))
    else None
  }

  /** The number of leading 1 bits of an octet. */
  function LeadingOnes(b: Byte): nat {
    if b < 0x80 then 0 else if b < 0xC0 then 1 else if b < 0xE0 then 2
    else if b < 0xF0 then 3 else if b < 0xF8 then 4 else if b < 0xFC then 5
    else if b < 0xFE then 6 else if b < 0xFF then 7 else 8
  }

  /** Reads `count` escapes of continuation octets (10xxxxxx), folding their low
      six bits into the code point accumulated so far. */
  function ParseContinuations(s: string, count: nat, acc: int): (r: Option<int>)
    ensures r.Some? ==> |s| >= 3 * count
    decreases count
  {
    if count == 0 then Some(acc)
    else match ParseEscape(s)
      case None => None
      case Some(b) => if b / 64 != 2 then None else ParseContinuations(s[3..], count - 1, acc * 64 + b % 64)
  }

  /** The smallest code point whose UTF-8 form has `n` octets (shorter forms are overlong). */
  function MinCodePoint(n: nat): int {
    if n == 2 then 0x80 else if n == 3 then 0x800 else 0x1_0000
  }

  /** A code point that RFC 3629 allows: not above U+10FFFF and not a surrogate. */
  predicate IsScalar(v: int) {
    0 <= v < 0xD800 || 0xE000 <= v < 0x11_0000
  }

  /** Decodes the character at the head of a non-empty `s` and says how many
      characters it took; None is the URIError of `decodeURIComponent`. */
  function DecodeUnit(s: string): (r: Option<(char, nat)>)
    requires s != []
    ensures r.Some? ==> 1 <= r.value.1 <= |s|
  {
    if s[0] != '%' then Some((s[0], 1))
    else match ParseEscape(s)
      case None => None
      case Some(b) =>
        var n := LeadingOnes(b);
        if n == 0 then Some((b as char, 3))
        else if n == 1 || n > 4 then None
        else match ParseContinuations(s[3..], n - 1, b % LeadPayload(n))
          case None => None
          case Some(v) =>
            if v >= MinCodePoint(n) && IsScalar(v) then Some((v as char, 3 * n)) else None
  }

  /** The lead octet of an `n`-octet sequence keeps its low 7 - n bits of payload. */
  function LeadPayload(n: nat): nat {
    if n == 2 then 32 else if n == 3 then 16 else 8
  }

  /** `decodeURIComponent`; None when it throws URIError. */
  function DecodeURIComponent(s: string): Option<string>
    decreases |s|
  {
    if s == [] then Some([])
    else match DecodeUnit(s)
      case None => None
      case Some((c, k)) =>
        match DecodeURIComponent(s[k..])
        case None => None
        case Some(rest) => Some([c] + rest)
  }

  lemma EscapeParses(b: Byte, rest: string)
    ensures ParseEscape(Escape(b) + rest) == Some(b)
  {
    var s := Escape(b) + rest;
    assert s[0] == '%' && s[1] == HexDigit(b / 16) && s[2] == HexDigit(b % 16);
  }

  /** One escaped continuation octet is consumed and its six low bits folded in. */
  lemma ContinuationStep(b: Byte, rest: string, count: nat, acc: int)
    requires count > 0 && 0x80 <= b < 0xC0
    ensures ParseContinuations(Escape(b) + rest, count, acc)
            == ParseContinuations(rest, count - 1, acc * 64 + b % 64)
  {
    EscapeParses(b, rest);
    assert (Escape(b) + rest)[3..] == rest;
  }

  /** Decoding the escapes of an `n`-octet sequence starts with the lead octet. */
  lemma LeadStep(b: Byte, tail: string, rest: string)
    requires LeadingOnes(b) >= 2
    ensures DecodeUnit(Escape(b) + tail + rest) ==
      match ParseContinuations(tail + rest, LeadingOnes(b) - 1, b % LeadPayload(LeadingOnes(b)))
      case None => None
      case Some(v) =>
        if LeadingOnes(b) <= 4 && v >= MinCodePoint(LeadingOnes(b)) && IsScalar(v)
        then Some((v as char, 3 * LeadingOnes(b))) else None
  {
    var s := Escape(b) + tail + rest;
    assert s == Escape(b) + (tail + rest);
    EscapeParses(b, tail + rest);
    assert s[3..] == tail + rest;
  }

  lemma DecodeOneOctet(c: char, rest: string)
    requires !IsUnescaped(c) && c as int < 0x80
    ensures DecodeUnit(EncodeChar(c) + rest) == Some((c, 3))
  {
    var v := c as int;
    assert EncodeChar(c) == Escape(v);
    EscapeParses(v, rest);
  }

  lemma DecodeTwoOctets(c: char, rest: string)
    requires 0x80 <= c as int < 0x800
    ensures DecodeUnit(EncodeChar(c) + rest) == Some((c, 6))
  {
    var v := c as int;
    var b0, b1 := 0xC0 + v / 64, 0x80 + v % 64;
    assert Utf8(c) == [b0, b1] && [b0, b1][1..] == [b1];
    assert Escapes([b1]) == Escape(b1) + Escapes([]);
    assert EncodeChar(c) == Escape(b0) + Escape(b1);
    assert LeadingOnes(b0) == 2 && b0 % 32 == v / 64;
    LeadStep(b0, Escape(b1), rest);
    ContinuationStep(b1, rest, 1, v / 64);
  }

  /** Three escaped octets forming a well-formed sequence decode to one character. */
  lemma DecodeThreeEscapes(b0: Byte, b1: Byte, b2: Byte, rest: string)
    requires LeadingOnes(b0) == 3 && 0x80 <= b1 < 0xC0 && 0x80 <= b2 < 0xC0
    requires var v := (b0 % 16 * 64 + b1 % 64) * 64 + b2 % 64; v >= 0x800 && IsScalar(v)
    ensures var v := (b0 % 16 * 64 + b1 % 64) * 64 + b2 % 64;
            DecodeUnit(Escape(b0) + (Escape(b1) + Escape(b2)) + rest) == Some((v as char, 9))
  {
    LeadStep(b0, Escape(b1) + Escape(b2), rest);
    assert Escape(b1) + Escape(b2) + rest == Escape(b1) + (Escape(b2) + rest);
    ContinuationStep(b1, Escape(b2) + rest, 2, b0 % 16);
    ContinuationStep(b2, rest, 1, b0 % 16 * 64 + b1 % 64);
  }

  lemma DecodeFourEscapes(b0: Byte, b1: Byte, b2: Byte, b3: Byte, rest: string)
    requires LeadingOnes(b0) == 4 && 0x80 <= b1 < 0xC0 && 0x80 <= b2 < 0xC0 && 0x80 <= b3 < 0xC0
    requires var v := ((b0 % 8 * 64 + b1 % 64) * 64 + b2 % 64) * 64 + b3 % 64; v >= 0x1_0000 && IsScalar(v)
    ensures var v := ((b0 % 8 * 64 + b1 % 64) * 64 + b2 % 64) * 64 + b3 % 64;
            DecodeUnit(Escape(b0) + (Escape(b1) + (Escape(b2) + Escape(b3))) + rest) == Some((v as char, 12))
  {
    LeadStep(b0, Escape(b1) + (Escape(b2) + Escape(b3)), rest);
    assert Escape(b1) + (Escape(b2) + Escape(b3)) + rest == Escape(b1) + (Escape(b2) + (Escape(b3) + rest));
    ContinuationStep(b1, Escape(b2) + (Escape(b3) + rest), 3, b0 % 8);
    ContinuationStep(b2, Escape(b3) + rest, 2, b0 % 8 * 64 + b1 % 64);
    ContinuationStep(b3, rest, 1, (b0 % 8 * 64 + b1 % 64) * 64 + b2 % 64);
  }

  lemma ThreeOctetArithmetic(v: int)
    requires 0x800 <= v < 0x1_0000
    ensures LeadingOnes(0xE0 + v / 4096) == 3
    ensures ((0xE0 + v / 4096) % 16 * 64 + (0x80 + v / 64 % 64) % 64) * 64 + (0x80 + v % 64) % 64 == v
  {
    assert (0xE0 + v / 4096) % 16 == v / 4096;
    assert v / 4096 * 64 + v / 64 % 64 == v / 64;
    assert v / 64 * 64 + v % 64 == v;
  }

  lemma FourOctetArithmetic(v: int)
    requires 0x1_0000 <= v < 0x11_0000
    ensures LeadingOnes(0xF0 + v / 262144) == 4
    ensures (((0xF0 + v / 262144) % 8 * 64 + (0x80 + v / 4096 % 64) % 64) * 64 + (0x80 + v / 64 % 64) % 64) * 64
            + (0x80 + v % 64) % 64 == v
  {
    assert (0xF0 + v / 262144) % 8 == v / 262144;
    assert v / 262144 * 64 + v / 4096 % 64 == v / 4096;
    assert v / 4096 * 64 + v / 64 % 64 == v / 64;
    assert v / 64 * 64 + v % 64 == v;
  }

  lemma EscapesOfThree(b0: Byte, b1: Byte, b2: Byte)
    ensures Escapes([b0, b1, b2]) == Escape(b0) + (Escape(b1) + Escape(b2))
  {
    assert Escapes([b2]) == Escape(b2) by {
      assert [b2][1..] == [];
    }
    assert Escapes([b1, b2]) == Escape(b1) + Escape(b2) by {
      assert [b1, b2][1..] == [b2];
    }
    assert [b0, b1, b2][1..] == [b1, b2];
  }

  lemma EscapesOfFour(b0: Byte, b1: Byte, b2: Byte, b3: Byte)
    ensures Escapes([b0, b1, b2, b3]) == Escape(b0) + (Escape(b1) + (Escape(b2) + Escape(b3)))
  {
    assert [b0, b1, b2, b3][1..] == [b1, b2, b3];
    EscapesOfThree(b1, b2, b3);
  }

  lemma DecodeThreeOctets(c: char, rest: string)
    requires 0x800 <= c as int < 0x1_0000
    ensures DecodeUnit(EncodeChar(c) + rest) == Some((c, 9))
  {
    var v := c as int;
    var b0, b1, b2 := 0xE0 + v / 4096, 0x80 + v / 64 % 64, 0x80 + v % 64;
    assert EncodeChar(c) == Escapes([b0, b1, b2]);
    EscapesOfThree(b0, b1, b2);
    ThreeOctetArithmetic(v);
    DecodeThreeEscapes(b0, b1, b2, rest);
  }

  lemma DecodeFourOctets(c: char, rest: string)
    requires 0x1_0000 <= c as int
    ensures DecodeUnit(EncodeChar(c) + rest) == Some((c, 12))
  {
    var v := c as int;
    var b0, b1, b2, b3 := 0xF0 + v / 262144, 0x80 + v / 4096 % 64, 0x80 + v / 64 % 64, 0x80 + v % 64;
    assert EncodeChar(c) == Escapes([b0, b1, b2, b3]);
    EscapesOfFour(b0, b1, b2, b3);
    FourOctetArithmetic(v);
    DecodeFourEscapes(b0, b1, b2, b3, rest);
  }

  /** Decoding undoes the encoding of one character, whatever follows it. */
  lemma DecodeEncodedChar(c: char, rest: string)
    ensures DecodeUnit(EncodeChar(c) + rest) == Some((c, |EncodeChar(c)|))
  {
    var v := c as int;
    if IsUnescaped(c) {
      assert (EncodeChar(c) + rest)[0] == c;
    } else if v < 0x80 {
      DecodeOneOctet(c, rest);
    } else if v < 0x800 {
      DecodeTwoOctets(c, rest);
    } else if v < 0x1_0000 {
      DecodeThreeOctets(c, rest);
    } else {
      DecodeFourOctets(c, rest);
    }
  }

  /** `decodeURIComponent(encodeURIComponent(s)) === s`. */
  lemma {:induction false} DecodeEncode(s: string)
    ensures DecodeURIComponent(EncodeURIComponent(s)) == Some(s)
    decreases |s|
  {
    if s != [] {
      var head := EncodeChar(s[0]);
      var tail := EncodeURIComponent(s[1..]);
      DecodeEncodedChar(s[0], tail);
      assert (head + tail)[|head|..] == tail;
      DecodeEncode(s[1..]);
      assert [s[0]] + s[1..] == s;
    }
  }

  lemma {:induction false} EscapesAreEscaped(bs: seq<Byte>)
    ensures forall i :: 0 <= i < |Escapes(bs)| ==> Escapes(bs)[i] == '%' || IsHexDigit(Escapes(bs)[i])
    decreases |bs|
  {
    if bs != [] {
      EscapesAreEscaped(bs[1..]);
      var e := Escapes(bs);
      assert forall i :: 3 <= i < |e| ==> e[i] == Escapes(bs[1..])[i - 3];
    }
  }

  lemma EncodeCharHasNoAmpersand(c: char)
    ensures |EncodeChar(c)| >= 1
    ensures forall i :: 0 <= i < |EncodeChar(c)| ==> EncodeChar(c)[i] != '&'
  {
    if !IsUnescaped(c) {
      EscapesAreEscaped(Utf8(c));
    }
  }

  /** An encoded component is non-empty for a non-empty input and holds no `&`
      (and so cannot end a query parameter early). */
  lemma {:induction false} EncodeHasNoAmpersand(s: string)
    ensures |EncodeURIComponent(s)| >= |s|
    ensures forall i :: 0 <= i < |EncodeURIComponent(s)| ==> EncodeURIComponent(s)[i] != '&'
    decreases |s|
  {
    if s != [] {
      var head, tail := EncodeChar(s[0]), EncodeURIComponent(s[1..]);
      EncodeHasNoAmpersand(s[1..]);
      EncodeCharHasNoAmpersand(s[0]);
      assert EncodeURIComponent(s) == head + tail;
      assert forall i :: |head| <= i < |head + tail| ==> (head + tail)[i] == tail[i - |head|];
    }
  }

  /** `ParseEscape` reads only the first three characters. */
  lemma ParseEscapeLocal(s: string, t: string)
    requires ParseEscape(s).Some?
    ensures |s| >= 3 && ParseEscape(s + t) == ParseEscape(s)
  {
    assert (s + t)[0] == s[0] && (s + t)[1] == s[1] && (s + t)[2] == s[2];
  }

  /** Continuation escapes that parse are read the same whatever follows them. */
  lemma {:induction false} ParseContinuationsLocal(s: string, t: string, count: nat, acc: int)
    requires ParseContinuations(s, count, acc).Some?
    ensures ParseContinuations(s + t, count, acc) == ParseContinuations(s, count, acc)
    decreases count
  {
    if count > 0 {
      ParseEscapeLocal(s, t);
      var b := ParseEscape(s).value;
      assert (s + t)[3..] == s[3..] + t;
      ParseContinuationsLocal(s[3..], t, count - 1, acc * 64 + b % 64);
    }
  }

  /** A character that decodes is decoded the same whatever follows it. */
  lemma DecodeUnitLocal(s: string, t: string)
    requires s != [] && DecodeUnit(s).Some?
    ensures DecodeUnit(s + t) == DecodeUnit(s)
  {
    if s[0] != '%' {
      assert (s + t)[0] == s[0];
    } else {
      ParseEscapeLocal(s, t);
      var b := ParseEscape(s).value;
      var n := LeadingOnes(b);
      if 2 <= n <= 4 {
        assert (s + t)[3..] == s[3..] + t;
        ParseContinuationsLocal(s[3..], t, n - 1, b % LeadPayload(n));
      }
    }
  }

  /** The first character of a decodable `a` is decoded alike in `a + b`. */
  lemma DecodeSplit(a: string, b: string) returns (c: char, k: nat)
    requires a != [] && DecodeURIComponent(a).Some?
    ensures 1 <= k <= |a| && DecodeURIComponent(a[k..]).Some?
    ensures DecodeURIComponent(a).value == [c] + DecodeURIComponent(a[k..]).value
    ensures DecodeURIComponent(a + b) ==
              match DecodeURIComponent(a[k..] + b)
              case None => None
              case Some(r) => Some([c] + r)
  {
    var unit := DecodeUnit(a).value;
    c, k := unit.0, unit.1;
    DecodeUnitLocal(a, b);
    assert (a + b)[k..] == a[k..] + b;
  }

  /** Decoding reads a decodable prefix on its own: `decodeURIComponent(a + b)`
      is the decoding of `a` followed by that of `b`, and throws exactly when
      decoding `b` throws. */
  lemma {:induction false} DecodeAppend(a: string, b: string)
    requires DecodeURIComponent(a).Some?
    ensures DecodeURIComponent(b).None? ==> DecodeURIComponent(a + b).None?
    ensures DecodeURIComponent(b).Some? ==>
              DecodeURIComponent(a + b) == Some(DecodeURIComponent(a).value + DecodeURIComponent(b).value)
    decreases |a|
  {
    if a == [] {
      assert a + b == b;
      assert DecodeURIComponent(a) == Some([]);
      if DecodeURIComponent(b).Some? {
        assert [] + DecodeURIComponent(b).value == DecodeURIComponent(b).value;
      }
    } else {
      var c, k := DecodeSplit(a, b);
      DecodeAppend(a[k..], b);
      AppendStep(c, DecodeURIComponent(a), DecodeURIComponent(b), DecodeURIComponent(a[k..]),
                 DecodeURIComponent(a[k..] + b), DecodeURIComponent(a + b));
    }
  }

  /** The inductive step of `DecodeAppend`, on the decodings alone: `whole` is
      `c` then `rest`, and `joined` is `c` then what `rest` decodes to with `b`. */
  lemma AppendStep(c: char, whole: Option<string>, b: Option<string>, rest: Option<string>,
                   restB: Option<string>, joined: Option<string>)
    requires whole.Some? && rest.Some? && whole.value == [c] + rest.value
    requires joined == match restB case None => None case Some(r) => Some([c] + r)
    requires b.None? ==> restB.None?
    requires b.Some? ==> restB == Some(rest.value + b.value)
    ensures b.None? ==> joined.None?
    ensures b.Some? ==> joined == Some(whole.value + b.value)
  {
    if b.Some? {
      assert [c] + (rest.value + b.value) == [c] + rest.value + b.value;
    }
  }

  /** A `%` that is not followed by two hexadecimal digits makes
      `decodeURIComponent` throw, wherever it stands after a decodable prefix. */
  lemma DecodeRejectsBadEscape(plain: string, rest: string)
    requires DecodeURIComponent(plain).Some?
    requires !(|rest| >= 2 && IsHexDigit(rest[0]) && IsHexDigit(rest[1]))
    ensures DecodeURIComponent(plain + "%" + rest) == None
  {
    var bad := "%" + rest;
    assert ParseEscape(bad) == None by {
      if |bad| >= 3 {
        assert bad[1] == rest[0] && bad[2] == rest[1];
      }
    }
    assert DecodeURIComponent(bad) == None;
    DecodeAppend(plain, bad);
    assert plain + "%" + rest == plain + bad;
  }

  /** An escaped octet that no UTF-8 sequence starts with (a lone continuation
      octet 10xxxxxx, or 0xF8 and above) makes `decodeURIComponent` throw,
      wherever it stands after a decodable prefix. */
  lemma DecodeRejectsBadLead(plain: string, b: Byte, rest: string)
    requires DecodeURIComponent(plain).Some?
    requires 0x80 <= b < 0xC0 || b >= 0xF8
    ensures DecodeURIComponent(plain + Escape(b) + rest) == None
  {
    var bad := Escape(b) + rest;
    EscapeParses(b, rest);
    assert DecodeURIComponent(bad) == None;
    DecodeAppend(plain, bad);
    assert plain + Escape(b) + rest == plain + bad;
  }
}
