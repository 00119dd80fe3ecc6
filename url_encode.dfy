/** `LisURLEncode`: the encoded base URL and the encoded query string, and the
    URL made of the two. */
module LisURLEncode {
  import opened Wrappers
  import opened Ascii
  import opened Strings
  import opened Configuration
  import opened EcmaUri
  import FormUrlencoded
  import LisURLQueryString

  /** `LisURLEncode.queryArray` on an array of pairs: the query string. It is
      empty exactly when there are no pairs. */
  function QueryArray(cfg: Config, list: seq<Param>): (r: AString)
    ensures r == [] <==> list == []
  {
    LisURLQueryString.Encode(cfg, list)
  }

  /** `LisURLEncode.baseURL`: `""` for the empty string, otherwise
      `encodeURI(baseURL)`. The result is empty only for the empty input,
      and `decodeURI` gives the input back. The guard changes nothing, as
      `encodeURI("")` is `""` too. */
  function BaseURL(baseURL: AString): (r: AString)
    ensures r == [] <==> baseURL == []
    ensures DecodeURI(r) == Some(baseURL)
    ensures r == EncodeURI(baseURL)
  {
    EncodeEmpty(baseURL, InUriUnescapedSet);
    DecodeEncodeURI(baseURL);
    if baseURL == [] then [] else EncodeURI(baseURL)
  }

  /** `LisURLEncode.url`: the base alone when either part is empty; otherwise
      the base, a `?` when `AUTO_QUESTION_MARK` is set, and the query string. */
  function Url(cfg: Config, baseURL: AString, list: seq<Param>): (r: AString)
    ensures baseURL == [] ==> r == []
    ensures list == [] ==> r == EncodeURI(baseURL)
    ensures baseURL != [] && list != [] && cfg.autoQuestionMark ==>
      r == EncodeURI(baseURL) + ['?'] + LisURLQueryString.Encode(cfg, list)
    ensures baseURL != [] && list != [] && !cfg.autoQuestionMark ==>
      r == EncodeURI(baseURL) + LisURLQueryString.Encode(cfg, list)
  {
    var base := BaseURL(baseURL);
    var queryString := QueryArray(cfg, list);
    var mark: AString := if cfg.autoQuestionMark then ['?'] else [];
    assert base + [] == base && [] + queryString == queryString;
    base + (if queryString != [] && base != [] then mark + queryString else [])
  }

  // ---------------------------------------------------------------------------
  // Lemmas

  /** With letter-and-digit keys the form-urlencoded parser reads the pairs back
      from the query string. */
  lemma QueryArrayParses(cfg: Config, list: seq<Param>)
    requires forall i | 0 <= i < |list| :: IsAlnumString(list[i].key)
    ensures FormUrlencoded.Parse(QueryArray(cfg, list)) == Some(list)
  {
    LisURLQueryString.ParseEncode(cfg, list);
  }

  /** A base made of the characters `encodeURI` leaves alone (the reserved
      `;/?:@&=+$,`, the unreserved ones and `#`) comes back unchanged. */
  lemma BaseURLUnescaped(baseURL: AString)
    requires forall i | 0 <= i < |baseURL| :: InUriUnescapedSet(baseURL[i])
    ensures BaseURL(baseURL) == baseURL
  {
    EncodeKeepsUnescaped(baseURL, InUriUnescapedSet);
  }

  /** The URL is empty exactly when the base is. */
  lemma UrlEmpty(cfg: Config, baseURL: AString, list: seq<Param>)
    ensures Url(cfg, baseURL, list) == [] <==> baseURL == []
  {
    EncodeEmpty(baseURL, InUriUnescapedSet);
  }

  /** `encodeURI` leaves a trailing `?` as it is. */
  lemma EncodeURIQuestionMark(baseURL: AString)
    ensures EncodeURI(baseURL + ['?']) == EncodeURI(baseURL) + ['?']
  {
    EncodeAppend(baseURL, ['?'], InUriUnescapedSet);
    var q: AString := ['?'];
    assert Encode(q, InUriUnescapedSet) == ['?'] by {
      assert q[1..] == [];
    }
  }

  /** A base that already ends in `?` gets a second one in front of the query
      string when `AUTO_QUESTION_MARK` is set. */
  lemma DoubleQuestionMark(cfg: Config, baseURL: AString, list: seq<Param>)
    requires cfg.autoQuestionMark && list != []
    ensures Url(cfg, baseURL + ['?'], list) ==
      EncodeURI(baseURL) + ['?', '?'] + LisURLQueryString.Encode(cfg, list)
  {
    EncodeURIQuestionMark(baseURL);
  }

  /** With `AUTO_QUESTION_MARK` set and a non-empty query, `decodeURI` of the URL
      is the base, a `?`, then the successful decoding of the query string. */
  lemma UrlDecodesAsUri(cfg: Config, baseURL: AString, list: seq<Param>)
    requires cfg.autoQuestionMark && baseURL != [] && list != []
    requires forall i | 0 <= i < |list| :: IsAlnumString(list[i].key)
    ensures DecodeURI(LisURLQueryString.Encode(cfg, list)).Some?
    ensures DecodeURI(Url(cfg, baseURL, list)) ==
      Prepend(baseURL + ['?'], DecodeURI(LisURLQueryString.Encode(cfg, list)))
  {
    var e := EncodeURI(baseURL);
    var q := LisURLQueryString.Encode(cfg, list);
    DecodeEncodeURI(baseURL);
    LisURLQueryString.EncodeDecodesAsUri(cfg, list, InUriReservedSet);
    var t := DecodeURI(q).value;
    var sq: AString := ['?'] + q;
    assert sq[1..] == q;
    assert DecodeURI(sq) == Some(['?'] + t);
    DecodeAppend(e, sq, InUriReservedSet);
    assert e + ['?'] + q == e + sq;
    assert baseURL + (['?'] + t) == baseURL + ['?'] + t;
  }
}
