/** `LisURLQueryString`: the value encoder and the query-string codec. */
module LisURLQueryString {
  import opened Ascii
  import opened Wrappers
  import opened Strings
  import opened Configuration
  import EcmaUri
  import FormUrlencoded

  /** The characters `encodeURIComponent` leaves alone although section 2.2 of
      RFC 3986 lists them as sub-delims: `! ' ( ) *`. */
  predicate IsSubDelimMark(c: AChar)
  {
    c == '!' || c == '\'' || c == '(' || c == ')' || c == '*'
  }

  /** `n.toString(16)` for a non-negative integer: lower-case digits, no padding. */
  function JsHexString(n: nat): AString
    decreases n
  {
    if n < 16 then [LowerHexDigit(n)] else JsHexString(n / 16) + [LowerHexDigit(n % 16)]
  }

  /** `encoded.replace(/[!'()*]/g, (c) => "%" + c.charCodeAt(0).toString(16))`. */
  function EscapeSubDelims(s: AString): AString
    decreases |s|
  {
    if s == [] then []
    else (if IsSubDelimMark(s[0]) then "%" + JsHexString(Code(s[0])) else [s[0]]) + EscapeSubDelims(s[1..])
  }

  /** What the value encoder makes of one character: `+` for a space in form mode,
      `%` and the lower-case code of one of `! ' ( ) *` in RFC 3986 mode, and
      otherwise what `encodeURIComponent` makes of it. */
  function ValueCharEncoding(rfc3986: bool, form: bool, c: AChar): AString
  {
    if form && c == ' ' then "+"
    else if rfc3986 && IsSubDelimMark(c) then ['%', LowerHexDigit(Code(c) / 16), LowerHexDigit(Code(c) % 16)]
    else EcmaUri.EncodeChar(c, EcmaUri.IsUriUnreserved)
  }

  /** The reference encoding of a value, character by character. */
  function ValueEncoding(rfc3986: bool, form: bool, s: AString): AString
    decreases |s|
  {
    if s == [] then [] else ValueCharEncoding(rfc3986, form, s[0]) + ValueEncoding(rfc3986, form, s[1..])
  }

  /** The second decoding applied to each value: `+` becomes a space, then
      `decodeURIComponent`. */
  function DecodeValue(v: AString): Option<AString>
  {
    EcmaUri.DecodeURIComponent(ReplaceAll(v, "+", " "))
  }

  /** `LisURLQueryString.encodeParamValue`: `encodeURIComponent`, then in RFC 3986
      mode the escape of `! ' ( ) *`, then in form mode `%20` rewritten to `+`.
      The result is the character-by-character encoding, and decoding it the way
      `decode` does gives the value back, for every setting of the two flags. */
  function EncodeParamValue(cfg: Config, value: AString): (r: AString)
    ensures r == ValueEncoding(cfg.rfc3986, cfg.formUrlencoded, value)
    ensures DecodeValue(r) == Some(value)
  {
    var component := EcmaUri.EncodeURIComponent(value);
    var encoded := if cfg.rfc3986 then EscapeSubDelims(component) else component;
    EscapeSubDelimsOfComponent(value);
    FormReplacement(cfg.rfc3986, value);
    ValueRoundTrip(cfg.rfc3986, cfg.formUrlencoded, value);
    if cfg.formUrlencoded then ReplaceAll(encoded, "%20", "+") else encoded
  }

  function EncodePairs(cfg: Config, list: seq<Param>): seq<AString>
    decreases |list|
  {
    if list == [] then []
    else [list[0].key + "=" + EncodeParamValue(cfg, list[0].value)] + EncodePairs(cfg, list[1..])
  }

  /** `LisURLQueryString.encode`: one `key=value` per entry, key as it is and value
      encoded, joined by `&` in input order. Where no key holds `&`, splitting the
      result on `&` gives the entries back one by one. */
  function Encode(cfg: Config, list: seq<Param>): (r: AString)
    ensures r == [] <==> list == []
    ensures list != [] && (forall i | 0 <= i < |list| :: '&' !in list[i].key) ==>
      var pieces := Split(r, '&');
      |pieces| == |list| &&
      forall i | 0 <= i < |list| :: pieces[i] == list[i].key + "=" + EncodeParamValue(cfg, list[i].value)
  {
    JoinedPairs(cfg, list);
    Join(EncodePairs(cfg, list), "&")
  }

  /** Entries the source keeps: at least one side non-empty. */
  predicate KeepEntry(p: Param) { p.key != [] || p.value != [] }

  /** The `filter` step of `decode`. */
  function FilterEntries(list: seq<Param>): (r: seq<Param>)
    ensures forall p :: p in r <==> p in list && KeepEntry(p)
    ensures |r| <= |list|
    ensures (forall i | 0 <= i < |list| :: KeepEntry(list[i])) ==> r == list
    decreases |list|
  {
    if list == [] then []
    else
      var rest := FilterEntries(list[1..]);
      assert list == [list[0]] + list[1..];
      if KeepEntry(list[0]) then [list[0]] + rest else rest
  }

  /** The `map` step of `decode`: keys as they are, values decoded a second
      time. One value that fails to decode makes the whole step fail. */
  function DecodeValues(list: seq<Param>): (r: Option<seq<Param>>)
    ensures r.Some? <==> forall i | 0 <= i < |list| :: DecodeValue(list[i].value).Some?
    ensures r.Some? ==>
      |r.value| == |list| &&
      forall i | 0 <= i < |list| :: r.value[i] == Param(list[i].key, DecodeValue(list[i].value).value)
    decreases |list|
  {
    if list == [] then Some([])
    else
      var rest := DecodeValues(list[1..]);
      assert forall i | 1 <= i < |list| :: list[i] == list[1..][i - 1];
      match DecodeValue(list[0].value)
      case None => None
      case Some(v) =>
        match rest
        case None => None
        case Some(t) => Some([Param(list[0].key, v)] + t)
  }

  /** What the `URLSearchParams` constructor parses of a string: the string
      without one leading `?`. */
  function SearchParamsInit(s: AString): (r: AString)
    ensures s != [] && s[0] == '?' ==> [s[0]] + r == s
    ensures (s == [] || s[0] != '?') ==> r == s
  {
    if s != [] && s[0] == '?' then s[1..] else s
  }

  /** `LisURLQueryString.decode`: the `URLSearchParams` parse of the string
      without one leading `?`, the entries empty on both sides dropped, then
      every value decoded a second time. No entry of a successful result is empty
      on both sides. */
  function Decode(s: AString): (r: Option<seq<Param>>)
    ensures r.Some? ==> forall i | 0 <= i < |r.value| :: KeepEntry(r.value[i])
  {
    match FormUrlencoded.Parse(SearchParamsInit(s))
    case None => None
    case Some(entries) =>
      var kept := FilterEntries(entries);
      DecodeValuesKeep(kept);
      DecodeValues(kept)
  }

  // ---------------------------------------------------------------------------
  // Lemmas: the value encoder

  lemma JsHexTwoDigits(n: nat)
    requires 16 <= n < 256
    ensures JsHexString(n) == [LowerHexDigit(n / 16), LowerHexDigit(n % 16)]
  {
  }

  lemma {:induction false} EscapeSubDelimsAppend(a: AString, b: AString)
    ensures EscapeSubDelims(a + b) == EscapeSubDelims(a) + EscapeSubDelims(b)
    decreases |a|
  {
    if a == [] {
      assert a + b == b;
    } else {
      assert (a + b)[0] == a[0] && (a + b)[1..] == a[1..] + b;
      EscapeSubDelimsAppend(a[1..], b);
    }
  }

  /** The RFC 3986 replacement, applied to the output of `encodeURIComponent`,
      touches exactly the characters `! ' ( ) *` of the value: it never matches
      inside an escape. */
  lemma {:induction false} EscapeSubDelimsOfComponent(s: AString)
    ensures EscapeSubDelims(EcmaUri.EncodeURIComponent(s)) == ValueEncoding(true, false, s)
    ensures EcmaUri.EncodeURIComponent(s) == ValueEncoding(false, false, s)
    decreases |s|
  {
    if s != [] {
      var c := s[0];
      var e := EcmaUri.EncodeChar(c, EcmaUri.IsUriUnreserved);
      EscapeSubDelimsOfComponent(s[1..]);
      EscapeSubDelimsAppend(e, EcmaUri.Encode(s[1..], EcmaUri.IsUriUnreserved));
      if EcmaUri.IsUriUnreserved(c) {
        assert e == [c];
        if IsSubDelimMark(c) {
          JsHexTwoDigits(Code(c));
        }
      } else {
        EcmaUri.TripletDigits(c);
        EscapeSubDelimsNone(e);
      }
    }
  }

  lemma {:induction false} EscapeSubDelimsNone(s: AString)
    requires forall i | 0 <= i < |s| :: !IsSubDelimMark(s[i])
    ensures EscapeSubDelims(s) == s
    decreases |s|
  {
    if s != [] {
      EscapeSubDelimsNone(s[1..]);
      assert [s[0]] + s[1..] == s;
    }
  }

  /** An escape other than `%20` survives the form rewrite. */
  lemma TripletNotSpace(x: AChar, y: AChar, rest: AString)
    requires x != '%' && y != '%' && [x, y] != "20"
    ensures ReplaceAll(['%', x, y] + rest, "%20", "+") == ['%', x, y] + ReplaceAll(rest, "%20", "+")
  {
    var s := ['%', x, y] + rest;
    assert s[..3] == ['%', x, y];
    assert !StartsWith(s, "%20");
    assert s[1..] == [x, y] + rest;
    ReplaceAllSkip([x, y], rest, "%20", "+");
  }

  /** The form rewrite on one character's encoding. */
  lemma FormReplacementChar(rfc3986: bool, c: AChar, rest: AString)
    ensures ReplaceAll(ValueCharEncoding(rfc3986, false, c) + rest, "%20", "+")
         == ValueCharEncoding(rfc3986, true, c) + ReplaceAll(rest, "%20", "+")
  {
    var e := ValueCharEncoding(rfc3986, false, c);
    if c == ' ' {
      assert e == "%20";
      ReplaceAllHit(rest, "%20", "+");
    } else if rfc3986 && IsSubDelimMark(c) {
      assert Code(c) % 16 != 0;
      TripletNotSpace(e[1], e[2], rest);
      assert e == ['%', e[1], e[2]];
    } else if EcmaUri.IsUriUnreserved(c) {
      ReplaceAllSkip(e, rest, "%20", "+");
    } else {
      EcmaUri.TripletDigits(c);
      assert [e[1], e[2]] != "20";
      TripletNotSpace(e[1], e[2], rest);
      assert e == ['%', e[1], e[2]];
    }
  }

  /** In form mode exactly the `%20` escapes, that is the spaces, become `+`. */
  lemma {:induction false} FormReplacement(rfc3986: bool, s: AString)
    ensures ReplaceAll(ValueEncoding(rfc3986, false, s), "%20", "+") == ValueEncoding(rfc3986, true, s)
    decreases |s|
  {
    if s != [] {
      FormReplacementChar(rfc3986, s[0], ValueEncoding(rfc3986, false, s[1..]));
      FormReplacement(rfc3986, s[1..]);
    }
  }

  /** A lower-case escape also decodes to its character. */
  lemma DecodeLowerTriplet(c: AChar)
    requires 16 <= Code(c)
    ensures EcmaUri.DecodeURIComponent(['%', LowerHexDigit(Code(c) / 16), LowerHexDigit(Code(c) % 16)]) == Some([c])
  {
    var t: AString := ['%', LowerHexDigit(Code(c) / 16), LowerHexDigit(Code(c) % 16)];
    var b := HexValue(t[1]) * 16 + HexValue(t[2]);
    assert b == Code(c);
    assert FromCode(b) == c by { assert (c as int) as char == c; }
    assert t[3..] == [];
    assert EcmaUri.Decode(t[3..], EcmaUri.InNoReservedSet) == Some([]);
    assert [c] + [] == [c];
  }

  /** The second decoding of `decode` on one character's encoding. */
  lemma DecodeValueChar(rfc3986: bool, form: bool, c: AChar, rest: AString)
    ensures DecodeValue(ValueCharEncoding(rfc3986, form, c) + rest)
         == EcmaUri.Prepend([c], DecodeValue(rest))
  {
    var e := ValueCharEncoding(rfc3986, form, c);
    var r := ReplaceAll(rest, "+", " ");
    var d: AString;
    if form && c == ' ' {
      ReplaceAllHit(rest, "+", " ");
      d := " ";
      EcmaUri.DecodeNoPercent(d, EcmaUri.InNoReservedSet);
    } else {
      if rfc3986 && IsSubDelimMark(c) {
        DecodeLowerTriplet(c);
      } else if EcmaUri.IsUriUnreserved(c) {
        EcmaUri.DecodeNoPercent(e, EcmaUri.InNoReservedSet);
      } else {
        EcmaUri.TripletDigits(c);
        EcmaUri.DecodeTriplet(c, EcmaUri.InNoReservedSet);
      }
      ReplaceAllSkip(e, rest, "+", " ");
      d := e;
    }
    assert ReplaceAll(e + rest, "+", " ") == d + r;
    EcmaUri.DecodeAppend(d, r, EcmaUri.InNoReservedSet);
  }

  /** `+` to space, then `decodeURIComponent`, gives every value back from its
      encoding, under each of the four flag settings. */
  lemma {:induction false} ValueRoundTrip(rfc3986: bool, form: bool, s: AString)
    ensures DecodeValue(ValueEncoding(rfc3986, form, s)) == Some(s)
    decreases |s|
  {
    if s == [] {
      assert ReplaceAll([], "+", " ") == [];
    } else {
      DecodeValueChar(rfc3986, form, s[0], ValueEncoding(rfc3986, form, s[1..]));
      ValueRoundTrip(rfc3986, form, s[1..]);
      assert [s[0]] + s[1..] == s;
    }
  }

  /** Every character of a value's encoding is unreserved, `%` or `+`. */
  predicate IsEncodedValueChar(c: AChar) { EcmaUri.IsUriUnreserved(c) || c == '%' || c == '+' }

  lemma {:induction false} ValueEncodingAlphabet(rfc3986: bool, form: bool, s: AString)
    ensures forall i | 0 <= i < |ValueEncoding(rfc3986, form, s)| :: IsEncodedValueChar(ValueEncoding(rfc3986, form, s)[i])
    decreases |s|
  {
    if s != [] {
      var e := ValueCharEncoding(rfc3986, form, s[0]);
      EcmaUri.TripletDigits(s[0]);
      assert forall i | 0 <= i < |e| :: IsEncodedValueChar(e[i]);
      ValueEncodingAlphabet(rfc3986, form, s[1..]);
    }
  }

  /** In form mode every `+` of the output stands for a space: writing each `+`
      back as `%20` gives the output of non-form mode. */
  lemma {:induction false} FormPlusIsSpace(rfc3986: bool, s: AString)
    ensures ReplaceAll(ValueEncoding(rfc3986, true, s), "+", "%20") == ValueEncoding(rfc3986, false, s)
    decreases |s|
  {
    if s == [] {
    } else {
      var c := s[0];
      var rest := ValueEncoding(rfc3986, true, s[1..]);
      FormPlusIsSpace(rfc3986, s[1..]);
      if c == ' ' {
        ReplaceAllHit(rest, "+", "%20");
        assert ValueCharEncoding(rfc3986, false, c) == "%20";
      } else {
        var e := ValueCharEncoding(rfc3986, true, c);
        EcmaUri.TripletDigits(c);
        ReplaceAllSkip(e, rest, "+", "%20");
      }
    }
  }

  // ---------------------------------------------------------------------------
  // Lemmas: the codec

  lemma JoinedPairs(cfg: Config, list: seq<Param>)
    ensures Join(EncodePairs(cfg, list), "&") == [] <==> list == []
    ensures list != [] && (forall i | 0 <= i < |list| :: '&' !in list[i].key) ==>
      var pieces := Split(Join(EncodePairs(cfg, list), "&"), '&');
      |pieces| == |list| &&
      forall i | 0 <= i < |list| :: pieces[i] == list[i].key + "=" + EncodeParamValue(cfg, list[i].value)
  {
    EncodePairsShape(cfg, list);
    if list != [] && (forall i | 0 <= i < |list| :: '&' !in list[i].key) {
      SplitJoin(EncodePairs(cfg, list), '&');
    }
    JoinEmpty(EncodePairs(cfg, list));
  }

  /** Decoding the values of kept entries keeps them non-empty. */
  lemma DecodeValuesKeep(kept: seq<Param>)
    requires forall p | p in kept :: KeepEntry(p)
    ensures DecodeValues(kept).Some? ==> forall i | 0 <= i < |DecodeValues(kept).value| :: KeepEntry(DecodeValues(kept).value[i])
  {
    var r := DecodeValues(kept);
    if r.Some? {
      forall i | 0 <= i < |kept| ensures KeepEntry(r.value[i]) {
        assert kept[i] in kept;
        ReplaceAllEmpty(kept[i].value, "+", " ");
        if kept[i].value != [] {
          DecodeNonEmpty(ReplaceAll(kept[i].value, "+", " "));
        }
      }
    }
  }

  lemma JoinEmpty(parts: seq<AString>)
    requires forall i | 0 <= i < |parts| :: parts[i] != []
    ensures Join(parts, "&") == [] <==> parts == []
  {
    if |parts| > 1 {
      assert Join(parts, "&")[|parts[0]|] == '&';
    }
  }

  lemma {:induction false} EncodePairsShape(cfg: Config, list: seq<Param>)
    ensures |EncodePairs(cfg, list)| == |list|
    ensures forall i | 0 <= i < |list| ::
      EncodePairs(cfg, list)[i] == list[i].key + "=" + EncodeParamValue(cfg, list[i].value)
    ensures forall i | 0 <= i < |list| :: EncodePairs(cfg, list)[i] != []
    ensures (forall i | 0 <= i < |list| :: '&' !in list[i].key) ==>
      forall i | 0 <= i < |list| :: '&' !in EncodePairs(cfg, list)[i]
    decreases |list|
  {
    if list != [] {
      EncodePairsShape(cfg, list[1..]);
      EncodedValueSeparators(cfg, list[0].value);
      assert forall i | 1 <= i < |list| :: list[i] == list[1..][i - 1];
    }
  }

  /** An encoded value holds neither `&` nor `=`. */
  lemma EncodedValueSeparators(cfg: Config, v: AString)
    ensures '&' !in EncodeParamValue(cfg, v) && '=' !in EncodeParamValue(cfg, v)
  {
    var e := EncodeParamValue(cfg, v);
    ValueEncodingAlphabet(cfg.rfc3986, cfg.formUrlencoded, v);
  }

  /** A non-empty string never decodes to the empty string. */
  lemma DecodeNonEmpty(s: AString)
    requires s != [] && EcmaUri.DecodeURIComponent(s).Some?
    ensures EcmaUri.DecodeURIComponent(s).value != []
  {
  }

  lemma ReplaceAllEmpty(s: AString, pat: AString, rep: AString)
    requires pat != [] && |rep| >= 1
    ensures ReplaceAll(s, pat, rep) == [] <==> s == []
  {
  }

  /** `FilterEntries` keeps the order: it works piece by piece. */
  lemma {:induction false} FilterEntriesAppend(a: seq<Param>, b: seq<Param>)
    ensures FilterEntries(a + b) == FilterEntries(a) + FilterEntries(b)
    decreases |a|
  {
    if a == [] {
      assert a + b == b;
    } else {
      assert (a + b)[0] == a[0] && (a + b)[1..] == a[1..] + b;
      FilterEntriesAppend(a[1..], b);
    }
  }

  /** A single entry is dropped exactly when both its key and value are empty; an
      entry with one empty side is kept. */
  lemma FilterEntriesSingle(p: Param)
    ensures FilterEntries([p]) == if p.key == [] && p.value == [] then [] else [p]
  {
    assert [p][1..] == [];
  }

  // ---------------------------------------------------------------------------
  // Lemmas: what survives the trip through a URL

  /** Every character's encoding decodes as a URI, whatever the reserved set. */
  lemma {:induction false} ValueEncodingDecodes(rfc3986: bool, form: bool, s: AString, reserved: AChar -> bool)
    ensures EcmaUri.Decode(ValueEncoding(rfc3986, form, s), reserved).Some?
    decreases |s|
  {
    if s != [] {
      var c := s[0];
      var e := ValueCharEncoding(rfc3986, form, c);
      if '%' !in e {
        EcmaUri.DecodeNoPercent(e, reserved);
      } else if rfc3986 && IsSubDelimMark(c) && !(form && c == ' ') {
        EcmaUri.DecodeEscape(e[1], e[2], reserved);
        assert e == ['%', e[1], e[2]];
      } else {
        EcmaUri.TripletDigits(c);
        EcmaUri.DecodeEscape(e[1], e[2], reserved);
        assert e == ['%', e[1], e[2]];
      }
      ValueEncodingDecodes(rfc3986, form, s[1..], reserved);
      EcmaUri.DecodeAppend(e, ValueEncoding(rfc3986, form, s[1..]), reserved);
    }
  }

  /** With letter-and-digit keys the whole query string decodes as a URI. */
  lemma EncodeDecodesAsUri(cfg: Config, list: seq<Param>, reserved: AChar -> bool)
    requires forall i | 0 <= i < |list| :: IsAlnumString(list[i].key)
    ensures EcmaUri.Decode(Encode(cfg, list), reserved).Some?
  {
    var parts := EncodePairs(cfg, list);
    EncodePairsShape(cfg, list);
    forall i | 0 <= i < |parts| ensures EcmaUri.Decode(parts[i], reserved).Some? {
      var k := list[i].key;
      var e := EncodeParamValue(cfg, list[i].value);
      assert '%' !in k + "=" by { assert forall j | 0 <= j < |k| :: IsAlnum(k[j]); }
      EcmaUri.DecodeNoPercent(k + "=", reserved);
      ValueEncodingDecodes(cfg.rfc3986, cfg.formUrlencoded, list[i].value, reserved);
      EcmaUri.DecodeAppend(k + "=", e, reserved);
    }
    EcmaUri.DecodeNoPercent("&", reserved);
    EcmaUri.DecodeJoin(parts, "&", reserved);
  }

  /** Letter-and-digit text is left alone by the parser's decoding. */
  lemma PlainTextDecodes(k: AString)
    requires '%' !in k && '+' !in k
    ensures FormUrlencoded.PercentDecode(ReplaceAll(k, "+", " ")) == Some(k)
  {
    ReplaceAllNothing(k, "+", " ");
    EcmaUri.DecodeNoPercent(k, EcmaUri.InNoReservedSet);
    FormUrlencoded.PercentDecodeAgrees(k);
  }

  /** One `key=value` piece with a letter-and-digit key. */
  lemma ParseKeyValue(k: AString, e: AString)
    requires IsAlnumString(k)
    ensures FormUrlencoded.ParsePiece(k + ['='] + e) ==
      match FormUrlencoded.PercentDecode(ReplaceAll(e, "+", " "))
      case None => None
      case Some(v) => Some(Param(k, v))
  {
    assert forall j | 0 <= j < |k| :: IsAlnum(k[j]);
    CutAtBlock(k, '=', e);
    PlainTextDecodes(k);
  }

  /** A piece without `&` is parsed on its own. */
  lemma ParseSinglePiece(q: AString)
    requires q != [] && '&' !in q
    ensures FormUrlencoded.Parse(q) ==
      match FormUrlencoded.ParsePiece(q)
      case None => None
      case Some(p) => Some([p])
  {
    SplitNoSeparator(q, '&');
    assert [q][1..] == [];
    assert FormUrlencoded.ParsePieces([]) == Some([]);
    match FormUrlencoded.ParsePiece(q) {
      case None =>
      case Some(p) => assert [p] + [] == [p];
    }
  }

  lemma ParseEncodedPiece(cfg: Config, p: Param)
    requires IsAlnumString(p.key)
    ensures FormUrlencoded.ParsePiece(p.key + "=" + EncodeParamValue(cfg, p.value)) == Some(p)
  {
    var e := EncodeParamValue(cfg, p.value);
    assert p.key + "=" + e == p.key + ['='] + e;
    ParseKeyValue(p.key, e);
    FormUrlencoded.PercentDecodeAgrees(ReplaceAll(e, "+", " "));
  }

  lemma {:induction false} ParseEncodedPairs(cfg: Config, list: seq<Param>)
    requires forall i | 0 <= i < |list| :: IsAlnumString(list[i].key)
    ensures FormUrlencoded.ParsePieces(EncodePairs(cfg, list)) == Some(list)
    decreases |list|
  {
    if list != [] {
      var pieces := EncodePairs(cfg, list);
      ParseEncodedPiece(cfg, list[0]);
      ParseEncodedPairs(cfg, list[1..]);
      assert pieces[0] != [] && pieces[1..] == EncodePairs(cfg, list[1..]);
      assert [list[0]] + list[1..] == list;
    }
  }

  /** The first `URLSearchParams` parse reads back the entries `encode` wrote,
      provided the keys are letters and digits. */
  lemma ParseEncode(cfg: Config, list: seq<Param>)
    requires forall i | 0 <= i < |list| :: IsAlnumString(list[i].key)
    ensures FormUrlencoded.Parse(Encode(cfg, list)) == Some(list)
  {
    EncodePairsShape(cfg, list);
    if list == [] {
      assert Split([], '&') == [[]];
    } else {
      assert forall i | 0 <= i < |list| :: '&' !in list[i].key by {
        forall i | 0 <= i < |list| ensures '&' !in list[i].key {
          assert forall j | 0 <= j < |list[i].key| :: IsAlnum(list[i].key[j]);
        }
      }
      var pieces := Split(Encode(cfg, list), '&');
      assert pieces == EncodePairs(cfg, list);
      ParseEncodedPairs(cfg, list);
    }
  }

  /** A value the second decoding leaves alone: no `%` and no `+`. */
  predicate SurvivesDoubleDecode(p: Param) { '%' !in p.value && '+' !in p.value }

  lemma {:induction false} DecodeValuesIdentity(list: seq<Param>)
    requires forall i | 0 <= i < |list| :: SurvivesDoubleDecode(list[i])
    ensures DecodeValues(list) == Some(list)
    decreases |list|
  {
    if list != [] {
      var v := list[0].value;
      ReplaceAllNothing(v, "+", " ");
      EcmaUri.DecodeNoPercent(v, EcmaUri.InNoReservedSet);
      assert DecodeValue(v) == Some(v);
      DecodeValuesIdentity(list[1..]);
      assert [Param(list[0].key, v)] + list[1..] == list;
    }
  }

  /** `decode` reads back what the serializer of `URLSearchParams` writes, when no
      entry is empty on both sides and no value holds `%` or `+`. */
  lemma DecodeSerialize(list: seq<Param>)
    requires forall i | 0 <= i < |list| :: KeepEntry(list[i]) && SurvivesDoubleDecode(list[i])
    ensures Decode(FormUrlencoded.Serialize(list)) == Some(list)
  {
    FormUrlencoded.ParseSerialize(list);
    assert SearchParamsInit(FormUrlencoded.Serialize(list)) == FormUrlencoded.Serialize(list);
    assert FilterEntries(list) == list;
    DecodeValuesIdentity(list);
  }

  /** The parser's decoding of one escape `%XY` followed by plain text. */
  lemma EscapeParses(x: AChar, y: AChar, t: AString)
    requires IsHexDigit(x) && IsHexDigit(y) && HexValue(x) * 16 + HexValue(y) < 128
    requires '%' !in t && '+' !in t
    ensures FormUrlencoded.PercentDecode(ReplaceAll(['%', x, y] + t, "+", " ")) ==
      Some([FromCode(HexValue(x) * 16 + HexValue(y))] + t)
  {
    var e: AString := ['%', x, y] + t;
    var b := HexValue(x) * 16 + HexValue(y);
    ReplaceAllNothing(e, "+", " ");
    assert e[3..] == t;
    EcmaUri.DecodeNoPercent(t, EcmaUri.InNoReservedSet);
    FormUrlencoded.PercentDecodeAgrees(t);
    assert FormUrlencoded.PercentDecode(e) == EcmaUri.Prepend([FromCode(b)], Some(t));
  }

  /** The parse step on `key=` followed by one escape `%XY` and plain text,
      which `URLSearchParams` reads as the string itself. */
  lemma ParseOneEscape(k: AString, x: AChar, y: AChar, t: AString)
    requires IsAlnumString(k)
    requires IsHexDigit(x) && IsHexDigit(y) && HexValue(x) * 16 + HexValue(y) < 128
    requires '%' !in t && '+' !in t && '&' !in t
    ensures SearchParamsInit(k + ['=', '%', x, y] + t) == k + ['=', '%', x, y] + t
    ensures FormUrlencoded.Parse(k + ['=', '%', x, y] + t) ==
      Some([Param(k, [FromCode(HexValue(x) * 16 + HexValue(y))] + t)])
  {
    var e: AString := ['%', x, y] + t;
    var q := k + ['=', '%', x, y] + t;
    assert q == k + ['='] + e;
    assert forall j | 0 <= j < |k| :: IsAlnum(k[j]);
    assert '&' !in q;
    assert q[0] != '?' by {
      if k != [] { assert q[0] == k[0]; } else { assert q[0] == '='; }
    }
    EscapeParses(x, y, t);
    ParseKeyValue(k, e);
    ParseSinglePiece(q);
  }

  /** The double decoding in action: an encoded `+` comes back as a space. */
  lemma DecodeEncodedPlus(k: AString)
    requires IsAlnumString(k)
    ensures Decode(k + "=%2B") == Some([Param(k, " ")])
  {
    ParseOneEscape(k, '2', 'B', []);
    assert HexValue('2') * 16 + HexValue('B') == 43;
    assert FromCode(43) == '+';
    assert k + "=%2B" == k + ['=', '%', '2', 'B'] + [];
    assert [FromCode(43)] + [] == "+";
    FilterEntriesSingle(Param(k, "+"));
    ReplaceAllHit([], "+", " ");
    assert ReplaceAll("+", "+", " ") == " ";
    EcmaUri.DecodeNoPercent(" ", EcmaUri.InNoReservedSet);
    assert DecodeValue("+") == Some(" ");
    var d := DecodeValues([Param(k, "+")]);
    assert d.Some? && |d.value| == 1 && d.value[0] == Param(k, " ");
    assert d.value == [Param(k, " ")];
  }

  /** The second decoding of the value `%41`. */
  lemma DecodeValueOfEscape()
    ensures DecodeValue("%41") == Some("A")
  {
    ReplaceAllNothing("%41", "+", " ");
    assert EcmaUri.Triplet('A') == "%41";
    EcmaUri.DecodeTriplet('A', EcmaUri.InNoReservedSet);
  }

  /** The parse step on `key=%2541`: the value `%41`. */
  lemma ParseEncodedEscape(k: AString)
    requires IsAlnumString(k)
    ensures SearchParamsInit(k + "=%2541") == k + "=%2541"
    ensures FormUrlencoded.Parse(k + "=%2541") == Some([Param(k, "%41")])
  {
    ParseOneEscape(k, '2', '5', "41");
    assert HexValue('2') * 16 + HexValue('5') == 37;
    assert FromCode(37) == '%';
    assert k + "=%2541" == k + ['=', '%', '2', '5'] + "41";
    assert [FromCode(37)] + "41" == "%41";
  }

  /** The double decoding in action: an encoded `%` followed by two hexadecimal
      digits is decoded a second time, silently. */
  lemma DecodeEncodedEscape(k: AString)
    requires IsAlnumString(k)
    ensures Decode(k + "=%2541") == Some([Param(k, "A")])
  {
    var v: AString := "%41";
    ParseEncodedEscape(k);
    FilterEntriesSingle(Param(k, v));
    DecodeValueOfEscape();
    var d := DecodeValues([Param(k, v)]);
    assert d.Some? && |d.value| == 1 && d.value[0] == Param(k, "A");
    assert d.value == [Param(k, "A")];
  }

  /** The double decoding in action: an encoded `%` that no two hexadecimal
      digits follow makes the whole decode fail. */
  lemma DecodeEncodedPercent(k: AString)
    requires IsAlnumString(k)
    ensures Decode(k + "=%25") == None
  {
    ParseOneEscape(k, '2', '5', []);
    assert k + "=%25" == k + ['=', '%', '2', '5'] + [];
    assert [FromCode(HexValue('2') * 16 + HexValue('5'))] + [] == "%";
    FilterEntriesSingle(Param(k, "%"));
    ReplaceAllNothing("%", "+", " ");
    assert DecodeValue("%") == None;
  }
}
