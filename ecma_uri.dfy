/** The URI handling functions of section 18.2.6 of ECMA-262 (6th edition),
    restricted to ASCII strings: `encodeURI`, `encodeURIComponent`, `decodeURI`
    and `decodeURIComponent`, written through the two abstract operations
    Encode (18.2.6.1.1) and Decode (18.2.6.1.2). A decoder's `None` stands
    for the `URIError` it throws on a malformed escape, and also for an escape
    of 0x80 or more, which the functions decode as UTF-8 but this model does
    not decode at all. */
module EcmaUri {
  import opened Ascii
  import opened Wrappers
  import opened Strings

  /** uriMark: `- _ . ! ~ * ' ( )`. */
  predicate IsUriMark(c: AChar)
  {
    c == '-' || c == '_' || c == '.' || c == '!' || c == '~' || c == '*' || c == '\'' || c == '(' || c == ')'
  }

  /** uriUnreserved: letters, digits and uriMark. */
  predicate IsUriUnreserved(c: AChar) { IsAlnum(c) || IsUriMark(c) }

  /** uriReserved: `; / ? : @ & = + $ ,`. */
  predicate IsUriReserved(c: AChar)
  {
    c == ';' || c == '/' || c == '?' || c == ':' || c == '@' || c == '&' || c == '=' || c == '+' || c == '$' || c == ','
  }

  /** The unescaped set of `encodeURI`: uriReserved, uriUnreserved and `#`. */
  predicate InUriUnescapedSet(c: AChar) { IsUriReserved(c) || IsUriUnreserved(c) || c == '#' }

  /** The reserved set of `decodeURI`: uriReserved and `#`. */
  predicate InUriReservedSet(c: AChar) { IsUriReserved(c) || c == '#' }

  /** The reserved set of `decodeURIComponent`, which is empty. */
  predicate InNoReservedSet(c: AChar) { false }

  /** The escape of one character: `%` and two upper-case hexadecimal digits. */
  function Triplet(c: AChar): AString
  {
    ['%', UpperHexDigit(Code(c) / 16), UpperHexDigit(Code(c) % 16)]
  }

  function EncodeChar(c: AChar, unescaped: AChar -> bool): AString
  {
    if unescaped(c) then [c] else Triplet(c)
  }

  /** The abstract operation Encode(string, unescapedSet). */
  function Encode(s: AString, unescaped: AChar -> bool): AString
    decreases |s|
  {
    if s == [] then [] else EncodeChar(s[0], unescaped) + Encode(s[1..], unescaped)
  }

  /** `p` put in front of a successful result. */
  function Prepend(p: AString, r: Option<AString>): Option<AString>
  {
    match r
    case None => None
    case Some(t) => Some(p + t)
  }

  /** The abstract operation Decode(string, reservedSet). A `%` must be followed
      by two hexadecimal digits; an escape that decodes to a character of the
      reserved set is kept as written. A byte of 0x80 or more would start a UTF-8
      sequence, which this ASCII model does not reach: it is a failure here. */
  function Decode(s: AString, reserved: AChar -> bool): Option<AString>
    decreases |s|
  {
    if s == [] then Some([])
    else if s[0] != '%' then Prepend([s[0]], Decode(s[1..], reserved))
    else if |s| < 3 || !IsHexDigit(s[1]) || !IsHexDigit(s[2]) then None
    else
      var b := HexValue(s[1]) * 16 + HexValue(s[2]);
      if b >= 128 then None
      else
        var c := FromCode(b);
        Prepend(if reserved(c) then s[..3] else [c], Decode(s[3..], reserved))
  }

  /** `encodeURI` (18.2.6.4). */
  function EncodeURI(s: AString): AString { Encode(s, InUriUnescapedSet) }

  /** `encodeURIComponent` (18.2.6.5). */
  function EncodeURIComponent(s: AString): AString { Encode(s, IsUriUnreserved) }

  /** `decodeURI` (18.2.6.2). */
  function DecodeURI(s: AString): Option<AString> { Decode(s, InUriReservedSet) }

  /** `decodeURIComponent` (18.2.6.3). */
  function DecodeURIComponent(s: AString): Option<AString> { Decode(s, InNoReservedSet) }

  // ---------------------------------------------------------------------------
  // Lemmas

  /** The two digits of a triplet give back the character's code. */
  lemma TripletDigits(c: AChar)
    ensures var t := Triplet(c);
      |t| == 3 && t[0] == '%' && IsHexDigit(t[1]) && IsHexDigit(t[2]) &&
      t[1] != '%' && t[2] != '%' &&
      HexValue(t[1]) * 16 + HexValue(t[2]) == Code(c)
  {
  }

  /** A string without `%` decodes to itself, whatever the reserved set. */
  lemma {:induction false} DecodeNoPercent(s: AString, reserved: AChar -> bool)
    requires '%' !in s
    ensures Decode(s, reserved) == Some(s)
    decreases |s|
  {
    if s != [] {
      DecodeNoPercent(s[1..], reserved);
      assert [s[0]] + s[1..] == s;
    }
  }

  /** A complete escape of a character outside the reserved set decodes to it. */
  lemma DecodeTriplet(c: AChar, reserved: AChar -> bool)
    requires !reserved(c)
    ensures Decode(Triplet(c), reserved) == Some([c])
  {
    var t := Triplet(c);
    TripletDigits(c);
    var b := HexValue(t[1]) * 16 + HexValue(t[2]);
    assert FromCode(b) == c by { assert (c as int) as char == c; }
    assert t[3..] == [];
    assert Decode(t[3..], reserved) == Some([]);
    assert [c] + [] == [c];
  }

  /** The character a well-formed escape `e` (three characters) decodes to, or
      the escape itself when that character is reserved. */
  function EscapeDecoding(e: AString, reserved: AChar -> bool): AString
    requires |e| == 3 && IsHexDigit(e[1]) && IsHexDigit(e[2]) && HexValue(e[1]) * 16 + HexValue(e[2]) < 128
  {
    var c := FromCode(HexValue(e[1]) * 16 + HexValue(e[2]));
    if reserved(c) then e else [c]
  }

  /** A well-formed escape in front of `r`: its decoding, then that of `r`. */
  lemma DecodeEscapeFront(e: AString, r: AString, reserved: AChar -> bool)
    requires |e| == 3 && e[0] == '%' && IsHexDigit(e[1]) && IsHexDigit(e[2])
    requires HexValue(e[1]) * 16 + HexValue(e[2]) < 128
    ensures Decode(e + r, reserved) == Prepend(EscapeDecoding(e, reserved), Decode(r, reserved))
  {
    var s := e + r;
    assert s[0] == '%' && s[1] == e[1] && s[2] == e[2];
    assert s[..3] == e && s[3..] == r;
  }

  /** Two prefixes put in front one after the other are their concatenation put
      in front. */
  lemma PrependPrepend(p: AString, q: AString, r: Option<AString>)
    ensures Prepend(p, Prepend(q, r)) == Prepend(p + q, r)
  {
    match r {
      case None =>
      case Some(t) => assert p + (q + t) == (p + q) + t;
    }
  }

  /** The escape case of `DecodeAppend`, given the claim for what follows the
      escape. */
  lemma DecodeAppendEscape(a: AString, b: AString, reserved: AChar -> bool)
    requires |a| >= 3 && a[0] == '%' && IsHexDigit(a[1]) && IsHexDigit(a[2])
    requires HexValue(a[1]) * 16 + HexValue(a[2]) < 128
    requires Decode(a[3..], reserved).Some?
    requires Decode(a[3..] + b, reserved) == Prepend(Decode(a[3..], reserved).value, Decode(b, reserved))
    ensures Decode(a, reserved).Some?
    ensures Decode(a + b, reserved) == Prepend(Decode(a, reserved).value, Decode(b, reserved))
  {
    var e := a[..3];
    var rest := a[3..];
    assert a == e + rest;
    AppendAssociative(e, rest, b);
    DecodeEscapeFront(e, rest, reserved);
    DecodeEscapeFront(e, rest + b, reserved);
    PrependPrepend(EscapeDecoding(e, reserved), Decode(rest, reserved).value, Decode(b, reserved));
  }

  /** Decoding works piecewise once the first part decodes on its own. */
  lemma {:induction false} DecodeAppend(a: AString, b: AString, reserved: AChar -> bool)
    requires Decode(a, reserved).Some?
    ensures Decode(a + b, reserved) == Prepend(Decode(a, reserved).value, Decode(b, reserved))
    decreases |a|
  {
    var s := a + b;
    if a == [] {
      assert s == b;
      match Decode(b, reserved) {
        case None =>
        case Some(t) => assert [] + t == t;
      }
    } else if a[0] != '%' {
      assert s[0] == a[0] && s[1..] == a[1..] + b;
      DecodeAppend(a[1..], b, reserved);
      PrependPrepend([a[0]], Decode(a[1..], reserved).value, Decode(b, reserved));
    } else {
      assert |a| >= 3 && IsHexDigit(a[1]) && IsHexDigit(a[2]) && HexValue(a[1]) * 16 + HexValue(a[2]) < 128;
      DecodeAppend(a[3..], b, reserved);
      DecodeAppendEscape(a, b, reserved);
    }
  }

  /** Decode undoes Encode when `%` is always escaped and everything the decoder
      keeps escaped is in the encoder's unescaped set. */
  lemma {:induction false} DecodeEncode(s: AString, unescaped: AChar -> bool, reserved: AChar -> bool)
    requires !unescaped('%')
    requires forall c: AChar :: reserved(c) ==> unescaped(c)
    ensures Decode(Encode(s, unescaped), reserved) == Some(s)
    decreases |s|
  {
    if s != [] {
      var c := s[0];
      var e := EncodeChar(c, unescaped);
      if unescaped(c) {
        DecodeNoPercent(e, reserved);
      } else {
        DecodeTriplet(c, reserved);
      }
      DecodeEncode(s[1..], unescaped, reserved);
      DecodeAppend(e, Encode(s[1..], unescaped), reserved);
      assert [c] + s[1..] == s;
    }
  }

  /** `decodeURI(encodeURI(s)) == s`. */
  lemma DecodeEncodeURI(s: AString)
    ensures DecodeURI(EncodeURI(s)) == Some(s)
  {
    DecodeEncode(s, InUriUnescapedSet, InUriReservedSet);
  }

  /** `decodeURIComponent(encodeURIComponent(s)) == s`. */
  lemma DecodeEncodeURIComponent(s: AString)
    ensures DecodeURIComponent(EncodeURIComponent(s)) == Some(s)
  {
    DecodeEncode(s, IsUriUnreserved, InNoReservedSet);
  }

  /** Encode leaves a string made of unescaped characters as it is. */
  lemma {:induction false} EncodeKeepsUnescaped(s: AString, unescaped: AChar -> bool)
    requires forall i | 0 <= i < |s| :: unescaped(s[i])
    ensures Encode(s, unescaped) == s
    decreases |s|
  {
    if s != [] {
      EncodeKeepsUnescaped(s[1..], unescaped);
      assert [s[0]] + s[1..] == s;
    }
  }

  /** Encoding a concatenation is concatenating the encodings. */
  lemma {:induction false} EncodeAppend(a: AString, b: AString, unescaped: AChar -> bool)
    ensures Encode(a + b, unescaped) == Encode(a, unescaped) + Encode(b, unescaped)
    decreases |a|
  {
    if a == [] {
      assert a + b == b;
    } else {
      assert (a + b)[0] == a[0] && (a + b)[1..] == a[1..] + b;
      EncodeAppend(a[1..], b, unescaped);
    }
  }

  /** The encoding is empty exactly when the input is. */
  lemma EncodeEmpty(s: AString, unescaped: AChar -> bool)
    ensures Encode(s, unescaped) == [] <==> s == []
  {
  }

  /** A well-formed escape of an ASCII code decodes, whatever the reserved set. */
  lemma DecodeEscape(x: AChar, y: AChar, reserved: AChar -> bool)
    requires IsHexDigit(x) && IsHexDigit(y) && HexValue(x) * 16 + HexValue(y) < 128
    ensures Decode(['%', x, y], reserved).Some?
  {
    var t: AString := ['%', x, y];
    assert t[3..] == [];
    assert Decode(t[3..], reserved) == Some([]);
  }

  /** Parts that decode, joined by a separator that decodes, decode. */
  lemma {:induction false} DecodeJoin(parts: seq<AString>, sep: AString, reserved: AChar -> bool)
    requires forall i | 0 <= i < |parts| :: Decode(parts[i], reserved).Some?
    requires Decode(sep, reserved).Some?
    ensures Decode(Join(parts, sep), reserved).Some?
    decreases |parts|
  {
    if |parts| > 1 {
      DecodeJoin(parts[1..], sep, reserved);
      DecodeAppend(parts[0], sep, reserved);
      DecodeAppend(parts[0] + sep, Join(parts[1..], sep), reserved);
      assert parts[0] + sep + Join(parts[1..], sep) == (parts[0] + sep) + Join(parts[1..], sep);
    }
  }
}
