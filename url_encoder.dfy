/** `LisURLEncoder`: the facade. `encode` checks the base URL and the keys before
    assembling, `decode` checks the URL before splitting it, and both read the
    configuration held in the class's static fields, which `reset()` restores. */
module LisURLEncoder {
  import opened Wrappers
  import opened Ascii
  import opened Strings
  import opened Configuration
  import opened EcmaUri
  import LisURLQueryString
  import LisURLEncode
  import LisURLDecode

  /** `RESERVED_CHARS.some((c) => baseURL.includes(c))`. */
  predicate HasReservedChar(reservedChars: seq<AString>, baseURL: AString)
  {
    exists i | 0 <= i < |reservedChars| :: Contains(baseURL, reservedChars[i])
  }

  /** `queryArray.some(({ key }) => new RegExp(PARAM_KEY_REGEX, "g").test(key))`. */
  predicate SomeKeyMatches(engine: RegexEngine, pattern: string, list: seq<Param>)
  {
    exists i | 0 <= i < |list| :: RegexTest(engine, pattern, list[i].key)
  }

  /** The three checks of `encode`, in order: the base URL matches `URL_REGEX`,
      it holds no entry of `RESERVED_CHARS`, and some key matches
      `PARAM_KEY_REGEX`. */
  predicate EncodeAccepts(cfg: Config, engine: RegexEngine, baseURL: AString, list: seq<Param>)
  {
    RegexTest(engine, cfg.urlRegex, baseURL)
    && !HasReservedChar(cfg.reservedChars, baseURL)
    && SomeKeyMatches(engine, cfg.paramKeyRegex, list)
  }

  /** `LisURLEncoder.encode` under the configuration `cfg`: `""` when any check
      fails, the assembled URL otherwise. The result is empty exactly when a
      check fails or the base is empty; when the checks pass there is at least
      one pair, so the query string is never dropped. */
  function EncodeWith(cfg: Config, engine: RegexEngine, baseURL: AString, list: seq<Param>): (r: AString)
    ensures r == [] <==> !EncodeAccepts(cfg, engine, baseURL, list) || baseURL == []
    ensures EncodeAccepts(cfg, engine, baseURL, list) ==>
      list != [] && r == LisURLEncode.Url(cfg, baseURL, list)
  {
    LisURLEncode.UrlEmpty(cfg, baseURL, list);
    if !RegexTest(engine, cfg.urlRegex, baseURL) then []
    else if HasReservedChar(cfg.reservedChars, baseURL) then []
    else if !SomeKeyMatches(engine, cfg.paramKeyRegex, list) then []
    else LisURLEncode.Url(cfg, baseURL, list)
  }

  /** `LisURLEncoder.decode` under the configuration `cfg`: `null` exactly when
      the URL does not match `URL_REGEX`, the split URL otherwise. */
  function DecodeWith(cfg: Config, engine: RegexEngine, urlQuery: LisURLDecode.UrlQuery, url: AString): (r: Option<LisURLDecode.DecodedURL>)
    ensures r.None? <==> !RegexTest(engine, cfg.urlRegex, url)
    ensures r.Some? ==> r.value.baseURL == LisURLDecode.BaseURL(url)
    ensures r.Some? ==> r.value.queryString == LisURLDecode.QueryString(url, urlQuery)
  {
    if !RegexTest(engine, cfg.urlRegex, url) then None
    else Some(LisURLDecode.Url(url, urlQuery))
  }

  /** The static fields of `LisURLEncoder`. Callers may assign any of them
      directly; `reset()` assigns all but `DEBUGGING`. */
  class StaticFields {
    var debugging: bool
    var formUrlencoded: bool
    var urlRegex: string
    var reservedChars: seq<AString>
    var paramKeyRegex: string
    var autoQuestionMark: bool
    var rfc3986: bool

    /** The fields the encoders read, as one value. */
    function Current(): Config
      reads this
    {
      Config(formUrlencoded, autoQuestionMark, rfc3986, urlRegex, reservedChars, paramKeyRegex)
    }

    /** The static initialisers: everything off but `AUTO_QUESTION_MARK`, and
        the default patterns and reserved characters. */
    constructor()
      ensures Current() == INITIAL && !debugging
    {
      debugging := false;
      formUrlencoded := false;
      urlRegex := DEFAULT_URL_REGEX;
      reservedChars := DEFAULT_RESERVED_CHARS;
      paramKeyRegex := DEFAULT_PARAM_KEY_REGEX;
      autoQuestionMark := true;
      rfc3986 := false;
    }

    /** `LisURLEncoder.reset()`: the reset snapshot, whatever the fields held
        before, so that a second call changes nothing; `DEBUGGING` keeps its
        value. */
    method Reset()
      modifies this
      ensures Current() == AFTER_RESET
      ensures debugging == old(debugging)
    {
      formUrlencoded := false;
      autoQuestionMark := true;
      rfc3986 := true;
      urlRegex := DEFAULT_URL_REGEX;
      reservedChars := DEFAULT_RESERVED_CHARS;
      paramKeyRegex := DEFAULT_PARAM_KEY_REGEX;
    }

    /** `LisURLEncoder.encode(baseURL, queryArray)`, reading the fields at the
        time of the call. */
    method Encode(engine: RegexEngine, baseURL: AString, list: seq<Param>) returns (r: AString)
      ensures r == EncodeWith(Current(), engine, baseURL, list)
    {
      r := EncodeWith(Current(), engine, baseURL, list);
    }

    /** `LisURLEncoder.decode(url)`, reading the fields at the time of the call. */
    method Decode(engine: RegexEngine, urlQuery: LisURLDecode.UrlQuery, url: AString)
      returns (r: Option<LisURLDecode.DecodedURL>)
      ensures r == DecodeWith(Current(), engine, urlQuery, url)
    {
      r := DecodeWith(Current(), engine, urlQuery, url);
    }
  }

  // ---------------------------------------------------------------------------
  // Lemmas

  /** The key check needs a key, so an empty parameter list always gives `""`. */
  lemma EncodeNoParams(cfg: Config, engine: RegexEngine, baseURL: AString)
    ensures EncodeWith(cfg, engine, baseURL, []) == []
  {
  }

  /** One key of letters and digits among non-conforming ones passes the key
      check of the default pattern. */
  lemma OneGoodKeySuffices(engine: RegexEngine, list: seq<Param>, j: nat)
    requires j < |list| && IsAlnumString(list[j].key)
    ensures SomeKeyMatches(engine, DEFAULT_PARAM_KEY_REGEX, list)
  {
    assert RegexTest(engine, DEFAULT_PARAM_KEY_REGEX, list[j].key);
  }

  /** Under the default reserved characters, a base holding `&`, `=`, `?` or `+`
      is refused, and a base holding none of them passes that check. */
  lemma DefaultReservedChars(baseURL: AString)
    ensures HasReservedChar(DEFAULT_RESERVED_CHARS, baseURL) <==>
      '&' in baseURL || '=' in baseURL || '?' in baseURL || '+' in baseURL
  {
    var rs := DEFAULT_RESERVED_CHARS;
    assert rs[0] == ['&'] && rs[1] == ['='] && rs[2] == ['?'] && rs[3] == ['+'];
    ContainsChar(baseURL, '&');
    ContainsChar(baseURL, '=');
    ContainsChar(baseURL, '?');
    ContainsChar(baseURL, '+');
  }

  /** With an empty `RESERVED_CHARS` the reserved check never refuses. */
  lemma NoReservedChars(baseURL: AString)
    ensures !HasReservedChar([], baseURL)
  {
  }

  /** The round trip through both sides of the facade: a base URL without `?`
      and pairs with letter-and-digit keys, entries not empty on both sides and
      values free of `%` and `+`, encoded with `AUTO_QUESTION_MARK` set and
      accepted by the checks, decode to the same base and pairs, provided the
      URL check accepts the encoded URL and the `URL` constructor finds the
      encoded query string in it. A base holding `#` does not meet that last
      condition: the constructor reads `?` and the query after it as part of
      the fragment. */
  lemma EncodeDecode(cfg: Config, engine: RegexEngine, urlQuery: LisURLDecode.UrlQuery,
                     baseURL: AString, list: seq<Param>)
    requires cfg.autoQuestionMark && baseURL != [] && '?' !in baseURL
    requires EncodeAccepts(cfg, engine, baseURL, list)
    requires forall i | 0 <= i < |list| :: IsAlnumString(list[i].key)
    requires forall i | 0 <= i < |list| ::
      LisURLQueryString.KeepEntry(list[i]) && LisURLQueryString.SurvivesDoubleDecode(list[i])
    requires RegexTest(engine, cfg.urlRegex, EncodeWith(cfg, engine, baseURL, list))
    requires urlQuery(EncodeWith(cfg, engine, baseURL, list)) == Some(LisURLQueryString.Encode(cfg, list))
    ensures DecodeWith(cfg, engine, urlQuery, EncodeWith(cfg, engine, baseURL, list)) ==
      Some(LisURLDecode.DecodedURL(baseURL, LisURLDecode.Entries(list)))
  {
    var url := EncodeWith(cfg, engine, baseURL, list);
    LisURLEncode.UrlDecodesAsUri(cfg, baseURL, list);
    var t := DecodeURI(LisURLQueryString.Encode(cfg, list)).value;
    assert DecodeURI(url) == Some(baseURL + ['?'] + t);
    LisURLDecode.BaseURLOfDecoded(url, baseURL, t);
    LisURLDecode.QueryStringOfEncoded(url, urlQuery, cfg, list);
  }
}
