/** The behaviour the repository's test suite pins down, on short inputs of the
    same shape. */
module TestCases {
  import opened Wrappers
  import opened Ascii
  import opened Configuration
  import opened EcmaUri
  import FormUrlencoded
  import LisURLQueryString
  import LisURLEncode
  import LisURLDecode
  import LisURLEncoder

  /** A space in a value is `%20`, or `+` in form mode. */
  lemma SpaceInValue(cfg: Config)
    ensures !cfg.formUrlencoded ==> LisURLQueryString.EncodeParamValue(cfg, "a b") == "a%20b"
    ensures cfg.formUrlencoded ==> LisURLQueryString.EncodeParamValue(cfg, "a b") == "a+b"
  {
    var v: AString := "a b";
    assert Code(' ') == 32;
    assert LisURLQueryString.ValueEncoding(cfg.rfc3986, false, v) == "a%20b";
    assert LisURLQueryString.ValueEncoding(cfg.rfc3986, true, v) == "a+b";
  }

  /** `*` passes through with `RFC3986` off and becomes `%2a` with it on. */
  lemma StarInValue()
    ensures LisURLQueryString.EncodeParamValue(INITIAL, "*") == "*"
    ensures LisURLQueryString.EncodeParamValue(AFTER_RESET, "*") == "%2a"
  {
    var v: AString := "*";
    assert Code('*') == 42;
    assert LisURLQueryString.ValueEncoding(false, false, v) == "*";
    assert LisURLQueryString.ValueEncoding(true, false, v) == "%2a";
  }

  /** The query string of one pair. */
  lemma EncodeOnePair(cfg: Config, p: Param)
    ensures LisURLQueryString.Encode(cfg, [p]) == p.key + "=" + LisURLQueryString.EncodeParamValue(cfg, p.value)
  {
    var x := p.key + "=" + LisURLQueryString.EncodeParamValue(cfg, p.value);
    assert [p][1..] == [];
    assert LisURLQueryString.EncodePairs(cfg, [p]) == [x] + [];
    assert [x] + [] == [x];
  }

  /** The pair `q`, `a b` gives the query string `q=a%20b`, or `q=a+b` in form
      mode. */
  lemma QueryOfSpacedValue(cfg: Config)
    ensures !cfg.formUrlencoded ==> LisURLQueryString.Encode(cfg, [Param("q", "a b")]) == "q=a%20b"
    ensures cfg.formUrlencoded ==> LisURLQueryString.Encode(cfg, [Param("q", "a b")]) == "q=a+b"
  {
    var p := Param("q", "a b");
    EncodeOnePair(cfg, p);
    SpaceInValue(cfg);
  }

  /** The serialization of one pair. */
  lemma SerializeOnePair(p: Param)
    ensures FormUrlencoded.Serialize([p]) ==
      FormUrlencoded.SerializeString(p.key) + "=" + FormUrlencoded.SerializeString(p.value)
  {
    var x := FormUrlencoded.SerializeString(p.key) + "=" + FormUrlencoded.SerializeString(p.value);
    assert [p][1..] == [];
    assert FormUrlencoded.SerializeTuples([p]) == [x] + [];
    assert [x] + [] == [x];
  }

  /** A key the default pattern rejects makes `encode` give `""`. */
  lemma BadKeyRefused(engine: RegexEngine, baseURL: AString, value: AString)
    ensures LisURLEncoder.EncodeWith(INITIAL, engine, baseURL, [Param("q&; ", value)]) == []
  {
    KeyPatternExamples(engine);
  }

  /** With the empty key pattern a key the default pattern rejects, such as
      `q&; `, passes and is written verbatim. */
  lemma AnyKeyAcceptedByEmptyPattern(cfg: Config, engine: RegexEngine, baseURL: AString, p: Param)
    requires cfg.paramKeyRegex == [] && cfg.reservedChars == DEFAULT_RESERVED_CHARS && cfg.autoQuestionMark
    requires baseURL != [] && '?' !in baseURL && '&' !in baseURL && '=' !in baseURL && '+' !in baseURL
    requires RegexTest(engine, cfg.urlRegex, baseURL)
    ensures LisURLEncoder.EncodeWith(cfg, engine, baseURL, [p]) ==
      EncodeURI(baseURL) + ['?'] + p.key + ['='] + LisURLQueryString.EncodeParamValue(cfg, p.value)
  {
    LisURLEncoder.DefaultReservedChars(baseURL);
    assert LisURLEncoder.SomeKeyMatches(engine, cfg.paramKeyRegex, [p]) by {
      assert RegexTest(engine, cfg.paramKeyRegex, [p][0].key);
    }
    EncodeOnePair(cfg, p);
  }

  /** With `RESERVED_CHARS` empty a base ending in `?` is accepted and gives `??`
      in front of the query string; with `AUTO_QUESTION_MARK` off, a single `?`. */
  lemma BaseEndingInQuestionMark(cfg: Config, engine: RegexEngine, b: AString, p: Param)
    requires cfg.reservedChars == [] && cfg.paramKeyRegex == DEFAULT_PARAM_KEY_REGEX
    requires IsAlnumString(p.key)
    requires RegexTest(engine, cfg.urlRegex, b + ['?'])
    ensures cfg.autoQuestionMark ==>
      LisURLEncoder.EncodeWith(cfg, engine, b + ['?'], [p]) == EncodeURI(b) + ['?', '?'] + LisURLQueryString.Encode(cfg, [p])
    ensures !cfg.autoQuestionMark ==>
      LisURLEncoder.EncodeWith(cfg, engine, b + ['?'], [p]) == EncodeURI(b) + ['?'] + LisURLQueryString.Encode(cfg, [p])
  {
    assert LisURLEncoder.SomeKeyMatches(engine, cfg.paramKeyRegex, [p]) by {
      assert RegexTest(engine, cfg.paramKeyRegex, [p][0].key);
    }
    LisURLEncode.EncodeURIQuestionMark(b);
  }

  /** `URLSearchParams` writes the pair `q`, `a b` as `q=a+b`. */
  lemma SerializeSpaceAsPlus()
    ensures FormUrlencoded.Serialize([Param("q", "a b")]) == "q=a+b"
  {
    var k: AString := "q";
    var v: AString := "a b";
    SerializeOnePair(Param(k, v));
    assert FormUrlencoded.SerializeString(k) == "q";
    assert FormUrlencoded.SerializeString(v) == "a+b";
  }

  /** The query `q=a+b` of a URL the check accepts decodes to the pair
      `q`, `a b`. */
  lemma DecodePlusAsSpace(cfg: Config, engine: RegexEngine, urlQuery: LisURLDecode.UrlQuery, url: AString)
    requires url != [] && RegexTest(engine, cfg.urlRegex, url)
    requires urlQuery(url) == Some("q=a+b")
    ensures LisURLEncoder.DecodeWith(cfg, engine, urlQuery, url).Some?
    ensures LisURLEncoder.DecodeWith(cfg, engine, urlQuery, url).value.queryString ==
      LisURLDecode.Entries([Param("q", "a b")])
  {
    var list := [Param("q", "a b")];
    assert LisURLDecode.QueryString(url, urlQuery) == LisURLDecode.Entries(list) by {
      SerializeSpaceAsPlus();
      LisURLDecode.QueryStringOfSerialized(url, urlQuery, list);
    }
  }

  /** A URL the check rejects, such as the empty one, decodes to `null`. */
  lemma DecodeRefused(cfg: Config, engine: RegexEngine, urlQuery: LisURLDecode.UrlQuery, url: AString)
    requires !RegexTest(engine, cfg.urlRegex, url)
    ensures LisURLEncoder.DecodeWith(cfg, engine, urlQuery, url).None?
  {
  }
}
