/** `LisURLDecode`: a URL split back into its decoded base and its decoded query
    pairs. The WHATWG `URL` constructor is foreign code: the query it finds in a
    URL is a function the caller supplies, with `None` where the constructor
    throws. */
module LisURLDecode {
  import opened Wrappers
  import opened Ascii
  import opened Strings
  import opened EcmaUri
  import Configuration
  import FormUrlencoded
  import LisURLQueryString

  /** The query string of `new URL(url)`, without its `?`; `None` when the
      constructor throws. */
  type UrlQuery = AString -> Option<AString>

  /** What `LisURLDecode.queryString` returns: the decoded pairs, or the empty
      string when there is no URL or decoding it threw. */
  datatype QueryResult = Entries(list: seq<Param>) | EmptyString

  /** The object `{ baseURL, queryString }` of `LisURLDecode.url`. */
  datatype DecodedURL = DecodedURL(baseURL: AString, queryString: QueryResult)

  /** `new URL(url).searchParams.toString()`: the query parsed as
      application/x-www-form-urlencoded, then serialized again. The string it
      gives parses to the same pairs as the query it came from. */
  function SearchParamsString(url: AString, urlQuery: UrlQuery): (r: Option<AString>)
    ensures r.Some? <==> urlQuery(url).Some? && FormUrlencoded.Parse(urlQuery(url).value).Some?
    ensures r.Some? ==> FormUrlencoded.Parse(r.value) == FormUrlencoded.Parse(urlQuery(url).value)
    ensures r.Some? ==> '?' !in r.value
  {
    match urlQuery(url)
    case None => None
    case Some(query) =>
      match FormUrlencoded.Parse(query)
      case None => None
      case Some(list) =>
        FormUrlencoded.ParseSerialize(list);
        Some(FormUrlencoded.Serialize(list))
  }

  /** `LisURLDecode.queryString`: the pairs of the URL's query, or `""` when the
      URL is empty, the `URL` constructor throws, the query holds an escape this
      model does not decode, or the second decoding of a value fails. The pairs
      are those the parser reads from the URL's query, the ones empty on both
      sides dropped and each value decoded a second time: the detour through
      `searchParams.toString()` changes nothing. */
  function QueryString(url: AString, urlQuery: UrlQuery): (r: QueryResult)
    ensures url == [] ==> r == EmptyString
    ensures urlQuery(url).None? ==> r == EmptyString
    ensures urlQuery(url).Some? && FormUrlencoded.Parse(urlQuery(url).value).None? ==> r == EmptyString
    ensures url != [] && urlQuery(url).Some? && FormUrlencoded.Parse(urlQuery(url).value).Some? ==>
      var kept := LisURLQueryString.FilterEntries(FormUrlencoded.Parse(urlQuery(url).value).value);
      (r.EmptyString? <==> exists i | 0 <= i < |kept| :: LisURLQueryString.DecodeValue(kept[i].value).None?) &&
      (r.Entries? ==> LisURLQueryString.DecodeValues(kept) == Some(r.list))
    ensures r.Entries? ==> forall i | 0 <= i < |r.list| :: LisURLQueryString.KeepEntry(r.list[i])
  {
    if url == [] then EmptyString
    else
      match SearchParamsString(url, urlQuery)
      case None => EmptyString
      case Some(s) =>
        DecodeSearchParams(urlQuery(url).value, s);
        match LisURLQueryString.Decode(s)
        case None => EmptyString
        case Some(list) => Entries(list)
  }

  /** `LisURLDecode.baseURL`: the text of `decodeURI(url)` before its first `?`,
      or `""` when the URL is empty or `decodeURI` fails in this model: on a
      malformed escape, where it throws, and on an escape of 0x80 or more, where
      it would decode UTF-8. The result never
      holds a `?`, and it is a prefix of the decoded URL ending at its end or
      at a `?`. */
  function BaseURL(url: AString): (r: AString)
    ensures '?' !in r
    ensures url == [] || DecodeURI(url).None? ==> r == []
    ensures url != [] && DecodeURI(url).Some? ==>
      var d := DecodeURI(url).value;
      |r| <= |d| && d[..|r|] == r && (|r| < |d| ==> d[|r|] == '?')
  {
    if url == [] then []
    else
      match DecodeURI(url)
      case None => []
      case Some(d) =>
        SplitFirstPieceIsPrefix(d, '?');
        Split(d, '?')[0]
  }

  /** `LisURLDecode.url`: both parts, and for the empty URL the empty base with
      the empty-string query, neither sub-decoder being consulted. */
  function Url(url: AString, urlQuery: UrlQuery): (r: DecodedURL)
    ensures url == [] ==> r == DecodedURL([], EmptyString)
    ensures r.baseURL == BaseURL(url) && r.queryString == QueryString(url, urlQuery)
  {
    if url != [] then DecodedURL(BaseURL(url), QueryString(url, urlQuery))
    else DecodedURL([], EmptyString)
  }

  // ---------------------------------------------------------------------------
  // Lemmas

  /** `decode` of a string without `?` that parses as the query `q` does. */
  lemma DecodeSearchParams(q: AString, s: AString)
    requires '?' !in s && FormUrlencoded.Parse(s) == FormUrlencoded.Parse(q)
    ensures FormUrlencoded.Parse(q).None? ==> LisURLQueryString.Decode(s).None?
    ensures FormUrlencoded.Parse(q).Some? ==>
      var kept := LisURLQueryString.FilterEntries(FormUrlencoded.Parse(q).value);
      LisURLQueryString.Decode(s) == LisURLQueryString.DecodeValues(kept) &&
      (LisURLQueryString.DecodeValues(kept).None? <==>
        exists i | 0 <= i < |kept| :: LisURLQueryString.DecodeValue(kept[i].value).None?)
  {
    assert LisURLQueryString.SearchParamsInit(s) == s by {
      if s != [] { assert s[0] in s; }
    }
  }

  /** A URL whose query is the encoding of pairs with letter-and-digit keys,
      non-empty entries and values free of `%` and `+` gives those pairs back. */
  lemma QueryStringOfEncoded(url: AString, urlQuery: UrlQuery, cfg: Configuration.Config, list: seq<Param>)
    requires url != []
    requires urlQuery(url) == Some(LisURLQueryString.Encode(cfg, list))
    requires forall i | 0 <= i < |list| :: IsAlnumString(list[i].key)
    requires forall i | 0 <= i < |list| ::
      LisURLQueryString.KeepEntry(list[i]) && LisURLQueryString.SurvivesDoubleDecode(list[i])
    ensures QueryString(url, urlQuery) == Entries(list)
  {
    LisURLQueryString.ParseEncode(cfg, list);
    LisURLQueryString.DecodeSerialize(list);
  }

  /** A URL whose query is the serialization of pairs not empty on both sides and
      with values free of `%` and `+` gives those pairs back. */
  lemma QueryStringOfSerialized(url: AString, urlQuery: UrlQuery, list: seq<Param>)
    requires url != []
    requires urlQuery(url) == Some(FormUrlencoded.Serialize(list))
    requires forall i | 0 <= i < |list| ::
      LisURLQueryString.KeepEntry(list[i]) && LisURLQueryString.SurvivesDoubleDecode(list[i])
    ensures QueryString(url, urlQuery) == Entries(list)
  {
    FormUrlencoded.ParseSerialize(list);
    LisURLQueryString.DecodeSerialize(list);
  }

  /** The base of `b`, `?` and anything that decodes is `b` itself when `b` has
      no `?`. */
  lemma BaseURLOfDecoded(url: AString, b: AString, t: AString)
    requires url != [] && '?' !in b
    requires DecodeURI(url) == Some(b + ['?'] + t)
    ensures BaseURL(url) == b
  {
    SplitFirstPiece(b, '?', t);
  }
}
