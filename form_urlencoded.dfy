/** The application/x-www-form-urlencoded parser and serializer of section 5 of
    the WHATWG URL Standard, which `URLSearchParams` uses both to read a query
    and to write it back with `toString()`. */
module FormUrlencoded {
  import opened Ascii
  import opened Wrappers
  import opened Strings
  import EcmaUri

  /** The characters the serializer leaves alone: ASCII alphanumerics and
      `* - . _`; every other character is in the form percent-encode set. */
  predicate InFormUnescapedSet(c: AChar)
  {
    IsAlnum(c) || c == '*' || c == '-' || c == '.' || c == '_'
  }

  /** One character, percent-encoded with space-as-plus. */
  function SerializeChar(c: AChar): AString
  {
    if InFormUnescapedSet(c) then [c]
    else if c == ' ' then "+"
    else EcmaUri.Triplet(c)
  }

  function SerializeString(s: AString): AString
    decreases |s|
  {
    if s == [] then [] else SerializeChar(s[0]) + SerializeString(s[1..])
  }

  function SerializeTuples(list: seq<Param>): seq<AString>
    decreases |list|
  {
    if list == [] then []
    else [SerializeString(list[0].key) + "=" + SerializeString(list[0].value)] + SerializeTuples(list[1..])
  }

  /** The application/x-www-form-urlencoded serializer (section 5.2). */
  function Serialize(list: seq<Param>): AString
  {
    Join(SerializeTuples(list), "&")
  }

  /** Percent-decoding (section 1.3 of the standard): a `%` that is not followed by
      two hexadecimal digits stays as it is. The result is read as UTF-8; a byte of
      0x80 or more would give a non-ASCII character, which this model does not
      represent, so it is a failure here. */
  function PercentDecode(s: AString): Option<AString>
    decreases |s|
  {
    if s == [] then Some([])
    else if s[0] == '%' && |s| >= 3 && IsHexDigit(s[1]) && IsHexDigit(s[2]) then
      var b := HexValue(s[1]) * 16 + HexValue(s[2]);
      if b >= 128 then None else EcmaUri.Prepend([FromCode(b)], PercentDecode(s[3..]))
    else EcmaUri.Prepend([s[0]], PercentDecode(s[1..]))
  }

  /** One non-empty `&`-separated sequence: name before the first `=`, value after
      it; `+` becomes a space, then both are percent-decoded. */
  function ParsePiece(piece: AString): Option<Param>
  {
    var (name, value) := CutAt(piece, '=');
    match (PercentDecode(ReplaceAll(name, "+", " ")), PercentDecode(ReplaceAll(value, "+", " ")))
    case (Some(n), Some(v)) => Some(Param(n, v))
    case _ => None
  }

  function ParsePieces(pieces: seq<AString>): Option<seq<Param>>
    decreases |pieces|
  {
    if pieces == [] then Some([])
    else if pieces[0] == [] then ParsePieces(pieces[1..])
    else
      match (ParsePiece(pieces[0]), ParsePieces(pieces[1..]))
      case (Some(p), Some(rest)) => Some([p] + rest)
      case _ => None
  }

  /** The application/x-www-form-urlencoded parser (section 5.1): split on `&`,
      skip empty sequences, parse each of the others. */
  function Parse(s: AString): Option<seq<Param>>
  {
    ParsePieces(Split(s, '&'))
  }

  // ---------------------------------------------------------------------------
  // Lemmas

  /** The serialization of a string has no `&` and no `=`, and so cannot be
      confused with the separators; nor does it hold a `?`. */
  lemma {:induction false} SerializeStringAlphabet(s: AString)
    ensures '&' !in SerializeString(s) && '=' !in SerializeString(s) && '?' !in SerializeString(s)
    decreases |s|
  {
    if s != [] {
      SerializeStringAlphabet(s[1..]);
      EcmaUri.TripletDigits(s[0]);
    }
  }

  /** Lenient percent-decoding agrees with `decodeURIComponent` wherever the
      latter succeeds. */
  lemma {:induction false} PercentDecodeAgrees(s: AString)
    requires EcmaUri.DecodeURIComponent(s).Some?
    ensures PercentDecode(s) == EcmaUri.DecodeURIComponent(s)
    decreases |s|
  {
    if s != [] {
      if s[0] != '%' {
        PercentDecodeAgrees(s[1..]);
      } else {
        PercentDecodeAgrees(s[3..]);
      }
    }
  }

  /** Replacing `+` by a space and percent-decoding undoes the serialization of
      one character. */
  lemma DecodeSerializeChar(c: AChar, rest: AString)
    ensures PercentDecode(ReplaceAll(SerializeChar(c) + rest, "+", " "))
         == EcmaUri.Prepend([c], PercentDecode(ReplaceAll(rest, "+", " ")))
  {
    var e := SerializeChar(c);
    var r := ReplaceAll(rest, "+", " ");
    if InFormUnescapedSet(c) {
      ReplaceAllSkip(e, rest, "+", " ");
      assert ([c] + r)[1..] == r;
    } else if c == ' ' {
      ReplaceAllHit(rest, "+", " ");
      assert (" " + r)[1..] == r;
    } else {
      EcmaUri.TripletDigits(c);
      ReplaceAllSkip(e, rest, "+", " ");
      var t := e + r;
      assert t[0] == '%' && t[1] == e[1] && t[2] == e[2] && t[3..] == r;
      assert FromCode(Code(c)) == c by { assert (c as int) as char == c; }
    }
  }

  /** `+`-to-space and percent-decoding undo the serialization of a string. */
  lemma {:induction false} DecodeSerializeString(s: AString)
    ensures PercentDecode(ReplaceAll(SerializeString(s), "+", " ")) == Some(s)
    decreases |s|
  {
    if s != [] {
      DecodeSerializeChar(s[0], SerializeString(s[1..]));
      DecodeSerializeString(s[1..]);
      assert [s[0]] + s[1..] == s;
    }
  }

  /** Parsing one serialized tuple gives the tuple back. */
  lemma ParseSerializedPiece(p: Param)
    ensures ParsePiece(SerializeString(p.key) + "=" + SerializeString(p.value)) == Some(p)
  {
    var k := SerializeString(p.key);
    var v := SerializeString(p.value);
    SerializeStringAlphabet(p.key);
    CutAtBlock(k, '=', v);
    DecodeSerializeString(p.key);
    DecodeSerializeString(p.value);
  }

  /** Parsing the serialized pieces gives the list back. */
  lemma {:induction false} ParseSerializedTuples(list: seq<Param>)
    ensures ParsePieces(SerializeTuples(list)) == Some(list)
    decreases |list|
  {
    if list != [] {
      var piece := SerializeString(list[0].key) + "=" + SerializeString(list[0].value);
      var tuples := SerializeTuples(list);
      assert tuples == [piece] + SerializeTuples(list[1..]);
      assert tuples[0] == piece && tuples[1..] == SerializeTuples(list[1..]);
      assert piece != [];
      ParseSerializedPiece(list[0]);
      ParseSerializedTuples(list[1..]);
      assert [list[0]] + list[1..] == list;
      assert ParsePieces(tuples) == Some(list);
    } else {
      assert SerializeTuples(list) == [];
    }
  }

  lemma {:induction false} SerializeTuplesShape(list: seq<Param>)
    ensures |SerializeTuples(list)| == |list|
    ensures forall i | 0 <= i < |list| :: '&' !in SerializeTuples(list)[i] && '?' !in SerializeTuples(list)[i]
    decreases |list|
  {
    if list != [] {
      SerializeStringAlphabet(list[0].key);
      SerializeStringAlphabet(list[0].value);
      SerializeTuplesShape(list[1..]);
    }
  }

  /** The parser undoes the serializer: reading back what `toString()` writes
      gives the same list of tuples. */
  lemma ParseSerialize(list: seq<Param>)
    ensures Parse(Serialize(list)) == Some(list)
    ensures '?' !in Serialize(list)
  {
    var pieces := SerializeTuples(list);
    SerializeTuplesShape(list);
    JoinAvoids(pieces, "&", '?');
    if list == [] {
      assert Split([], '&') == [[]];
    } else {
      SplitJoin(pieces, '&');
      ParseSerializedTuples(list);
    }
  }
}
