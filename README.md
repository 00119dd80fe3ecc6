# url-encoder, modelled in Dafny

`LisURLEncoder` builds a URL from a base URL and an ordered list of `{key, value}`
pairs, and splits such a URL back into a base and a list of pairs. Both
directions read a global, mutable configuration held in the class's static
fields:

- `X_WWW_FORM_URLENCODED`, `AUTO_QUESTION_MARK` and `RFC3986`;
- `URL_REGEX`, `RESERVED_CHARS` and `PARAM_KEY_REGEX`.

`reset()` restores that configuration.

The project models the five layers of the library, one module each. Under them
sit the platform functions they call:

| module | models |
|---|---|
| `Ascii`, `Wrappers`, `Strings` | characters, `Option`, and the JavaScript string methods used (`split`, `includes`, `replace` with a global pattern, `join`) |
| `EcmaUri` | `encodeURI`, `encodeURIComponent`, `decodeURI` and `decodeURIComponent`, from section 18.2.6 of ECMA-262, as the abstract operations Encode and Decode with their character sets |
| `FormUrlencoded` | the application/x-www-form-urlencoded parser and serializer of section 5 of the WHATWG URL Standard, which `URLSearchParams` uses |
| `Configuration` | the configuration as a value, the load-time and the reset snapshot, and regular-expression tests |
| `LisURLQueryString` | the value encoder, and the query-string encoder and decoder |
| `LisURLEncode` | the encoded base, the encoded query, and the URL made of the two |
| `LisURLDecode` | the decoded base, the decoded pairs, and their pair of results |
| `LisURLEncoder` | the facade checks of `encode` and `decode`, and the static fields as a class with `reset` |
| `TestCases` | the behaviour the repository's tests pin down, on inputs of the same shape |

`index.main.js` is the Babel-compiled copy of `url-encoder.js`. It has the same
classes and the same behaviour, and installs the field defaults with
`_defineProperty`. It is modelled once, and its line numbers are cited where
they are the clearer reference.

Characters are ASCII. The ECMAScript encoders are total on ASCII, and both
decoders return an `Option`. `None` stands where the JavaScript function throws
`URIError` on a malformed escape. It also stands for a percent-escape of `%80`
or more: the program decodes such an escape as UTF-8, and the model does not
decode it at all. Two consequences follow, each giving `""` where the program
gives decoded text:

- `LisURLDecode.BaseURL` gives `""` for any URL holding such an escape anywhere,
  since `decodeURI` runs on the whole URL (url-encoder.js:91): `/caf%C3%A9`, and
  also `/x?q=%C3%A9`.
- `LisURLDecode.QueryString` gives `""` when some kept value holds such an escape
  after the parser's first decoding. That covers the query `q=%C3%A9`, and also
  `q=%25C3%25A9`, which is what `encode` writes for the value `%C3%A9`: the
  parser yields `%C3%A9`, which the program's second `decodeURIComponent`
  (url-encoder.js:29) turns into `é`. An escape in the path only leaves
  `QueryString` as it is.

The URL regular expression and the
WHATWG `URL` constructor are parameters:

- a `RegexEngine` decides the patterns this model does not spell out;
- a `UrlQuery` function gives the query component that `new URL(url)` finds, or
  `None` where the constructor throws.

The empty pattern, and the default key pattern `^[a-zA-Z0-9]*$`, are modelled
exactly.

What the code does with the configuration and with a round trip:

- **Load-time configuration.** `RFC3986` is `false` at load time
  (url-encoder.js:126, index.main.js:205) and `true` only after `reset()`
  (url-encoder.js:173), so the two snapshots differ in that one field.
- **Round trip.** Each value is decoded twice: once by `URLSearchParams`, then
  again with `+` turned into a space and `decodeURIComponent` applied
  (url-encoder.js:22-29). So a value holding `+` comes back with a space
  (`LisURLQueryString.DecodeEncodedPlus`). A value holding `%` and two
  hexadecimal digits comes back decoded: `%41` is written as `%2541` and read
  back as `A` (`LisURLQueryString.DecodeEncodedEscape`). A value holding a `%`
  that no two hexadecimal digits follow makes the whole query decode fail
  (`LisURLQueryString.DecodeEncodedPercent`). The round trip is proved for
  values free of `%` and `+`.
- **Key decoding.** Keys are percent-decoded once, by the parser only
  (url-encoder.js:28). Values are decoded twice.

## Model

| member | source | states |
|---|---|---|
| `Strings.Split` | url-encoder.js:91 | `split` for one character: at least one piece, no piece holds the separator, and joining the pieces with it gives the input back |
| `Strings.SplitFirstPieceIsPrefix` | url-encoder.js:91 | `split(c)[0]` is a prefix of the input that ends at its end or at the first `c` |
| `Strings.ContainsChar` | url-encoder.js:146-148 | `includes` for a one-character string holds exactly when the character occurs |
| `EcmaUri.DecodeEncodeURI` | url-encoder.js:53 | `decodeURI(encodeURI(s))` is `s` for every ASCII string |
| `EcmaUri.DecodeEncodeURIComponent` | url-encoder.js:4 | `decodeURIComponent(encodeURIComponent(s))` is `s` for every ASCII string |
| `EcmaUri.DecodeEncode` | url-encoder.js:53 | Decode undoes Encode whenever `%` is always escaped and every character the decoder keeps escaped is in the encoder's unescaped set |
| `EcmaUri.EncodeKeepsUnescaped` | url-encoder.js:53 | Encode leaves a string of unescaped-set characters unchanged |
| `EcmaUri.EncodeAppend` | url-encoder.js:53 | Encode of a concatenation is the concatenation of the encodings |
| `EcmaUri.DecodeAppend` | url-encoder.js:91 | once a prefix decodes, the decoding of the whole is that decoding followed by the decoding of the rest |
| `FormUrlencoded.ParseSerialize` | url-encoder.js:77 | what `searchParams.toString()` writes, the parser reads back as the same list of pairs |
| `FormUrlencoded.SerializeStringAlphabet` | url-encoder.js:77 | a serialized name or value holds neither `&` nor `=` |
| `FormUrlencoded.PercentDecodeAgrees` | url-encoder.js:22 | wherever `decodeURIComponent` succeeds, the parser's lenient percent-decoding gives the same string |
| `Configuration.InitialVersusReset` | index.main.js:182-205 | the load-time and the reset snapshot differ only in `RFC3986`: `false` at load, `true` after reset |
| `Configuration.DefaultKeyPattern` | url-encoder.js:124 | the default key pattern accepts exactly the strings of ASCII letters and digits, the empty one included |
| `Configuration.KeyPatternExamples` | url-encoder.js:155-157 | the default key pattern accepts `""` and `q`, and rejects `q&; `; the empty pattern accepts `q&; ` |
| `LisURLQueryString.EncodeParamValue` | url-encoder.js:2-11 | equals the character-by-character reference encoding for both flags (see `ValueCharEncoding`), and the second decoding that `decode` applies gives the value back |
| `LisURLQueryString.EscapeSubDelimsOfComponent` | url-encoder.js:3-7 | with `RFC3986` off, `encodeURIComponent` is the reference encoding. `! ' ( ) *` stay literal and a space is `%20`. With it on, the `/[!'()*]/g` replacement turns each of the five into `%` and its two lower-case hex digits |
| `LisURLQueryString.JsHexTwoDigits` | url-encoder.js:5 | `toString(16)` of a code from 16 to 255 is its two lower-case hex digits |
| `LisURLQueryString.FormReplacement` | url-encoder.js:8-10 | in form mode, replacing every `%20` with `+` changes only the spaces' triplets |
| `LisURLQueryString.FormPlusIsSpace` | url-encoder.js:8-10 | in form mode, every `+` of the output stands for a space: turning each back into `%20` gives the non-form encoding |
| `LisURLQueryString.ValueRoundTrip` | url-encoder.js:2-11 | `+` replaced by a space, then `decodeURIComponent`, returns the original value for every combination of the two flags |
| `LisURLQueryString.ValueEncodingAlphabet` | url-encoder.js:2-11 | an encoded value holds only unreserved characters, `%` and `+` |
| `LisURLQueryString.EncodedValueSeparators` | url-encoder.js:2-11 | an encoded value holds neither `&` nor `=` |
| `LisURLQueryString.Encode` | url-encoder.js:13-19 | empty exactly for the empty list. When no key holds `&`, splitting on `&` gives one piece per entry, in order: the key verbatim, `=`, and the encoded value |
| `LisURLQueryString.EncodeDecodesAsUri` | url-encoder.js:13-19 | with letter-and-digit keys the query string decodes without error under any reserved set |
| `LisURLQueryString.ParseEncode` | url-encoder.js:13-19 | with letter-and-digit keys the form-urlencoded parser reads exactly the encoded list back, for every setting of the flags |
| `LisURLQueryString.FilterEntries` | url-encoder.js:23-25 | keeps exactly the entries with a non-empty key or value, never grows the list, and changes nothing when every entry is kept |
| `LisURLQueryString.FilterEntriesAppend` | url-encoder.js:23-25 | the filter works entry by entry: filtering a concatenation concatenates the filtered parts, so the parser's order is kept |
| `LisURLQueryString.FilterEntriesSingle` | url-encoder.js:23-25 | a single entry is dropped exactly when both its key and its value are empty |
| `LisURLQueryString.DecodeValues` | url-encoder.js:26-31 | succeeds exactly when every value survives the second decoding; each entry keeps its key and has its value decoded a second time |
| `LisURLQueryString.Decode` | url-encoder.js:21-32 | the parse of the string without one leading `?`, as the `URLSearchParams` constructor takes it; every entry of a successful result has a non-empty key or value |
| `LisURLQueryString.DecodeSerialize` | url-encoder.js:21-32 | the serialization of pairs that are kept and whose values hold neither `%` nor `+` decodes back to exactly those pairs |
| `LisURLQueryString.DecodeEncodedPlus` | url-encoder.js:29 | a value serialized as `%2B` (a literal `+`) decodes to a space |
| `LisURLQueryString.DecodeEncodedEscape` | url-encoder.js:29 | a value serialized as `%2541` (the literal text `%41`) is decoded a second time and comes back as `A` |
| `LisURLQueryString.DecodeEncodedPercent` | url-encoder.js:29 | a value serialized as `%25` (a literal `%` with no hexadecimal digits after it) makes the whole decode fail |
| `LisURLEncode.QueryArray` | url-encoder.js:36-47 | the query string is empty exactly when there are no pairs |
| `LisURLEncode.QueryArrayParses` | url-encoder.js:36-47 | with letter-and-digit keys, the form-urlencoded parser reads the pairs back from the query string |
| `LisURLEncode.BaseURL` | url-encoder.js:49-59 | `""` exactly for the empty input; `decodeURI` gives the input back; the result is `encodeURI(baseURL)` in both branches |
| `LisURLEncode.BaseURLUnescaped` | index.main.js:58-70 | a base made of `; / ? : @ & = + $ , #` and unreserved characters is returned unchanged |
| `LisURLEncode.Url` | url-encoder.js:61-70 | the encoded base alone when the base or the list is empty. Otherwise the encoded base, then `?` only if `AUTO_QUESTION_MARK`, then the query string |
| `LisURLEncode.UrlEmpty` | url-encoder.js:61-70 | the URL is empty exactly when the base is |
| `LisURLEncode.EncodeURIQuestionMark` | url-encoder.js:53 | `encodeURI` keeps a trailing `?` |
| `LisURLEncode.DoubleQuestionMark` | url-encoder.js:61-70 | a base ending in `?` gets `??` in front of the query string when `AUTO_QUESTION_MARK` is set |
| `LisURLEncode.UrlDecodesAsUri` | url-encoder.js:61-70 | with `AUTO_QUESTION_MARK` set, `decodeURI` of the URL is the base, `?`, and the successful decoding of the query string |
| `LisURLDecode.SearchParamsString` | url-encoder.js:77 | `searchParams.toString()` exists exactly when the `URL` constructor accepts the URL and the form-urlencoded parser accepts its query; an escape of `%80` or more counts as not accepted. What it writes holds no `?` and parses to the same pairs as the query it came from |
| `LisURLDecode.QueryString` | url-encoder.js:74-85 | `""` instead of a list for an empty URL, when the `URL` constructor throws, or when the parser rejects the query (an escape of `%80` or more). Otherwise `""` exactly when the second decoding of some kept value fails, and else the pairs the parser reads from the query, those empty on both sides dropped and each value decoded a second time |
| `LisURLDecode.DecodeSearchParams` | url-encoder.js:77 | `decode` of what `searchParams.toString()` writes gives what it would give on the URL's query itself: it has no `?` to strip and parses to the same pairs |
| `LisURLDecode.QueryStringOfEncoded` | url-encoder.js:74-85 | a URL whose query is the encoding of kept pairs with letter-and-digit keys and values free of `%` and `+` gives exactly those pairs |
| `LisURLDecode.QueryStringOfSerialized` | url-encoder.js:74-85 | a URL whose query is the serialization of kept pairs with values free of `%` and `+` gives exactly those pairs |
| `LisURLDecode.BaseURL` | url-encoder.js:87-99 | never holds `?`. It is `""` for an empty URL, when `decodeURI` throws, and when the URL holds an escape of `%80` or more, which the program decodes as UTF-8. Otherwise it is the prefix of the decoded URL that ends at its end or at its first `?` |
| `LisURLDecode.BaseURLOfDecoded` | url-encoder.js:87-99 | when `decodeURI(url)` is `b`, `?` and more, with no `?` in `b`, the base is `b` |
| `LisURLDecode.Url` | index.main.js:111-124 | an empty URL gives `{baseURL: "", queryString: ""}`; otherwise the two parts are the two sub-decoders' results |
| `LisURLEncoder.EncodeWith` | url-encoder.js:138-168 | the result is `""` exactly when one of the three checks fails or the base is empty. When the checks pass, the list is non-empty and the result is the assembled URL |
| `LisURLEncoder.EncodeNoParams` | url-encoder.js:155-165 | an empty parameter list always gives `""` |
| `LisURLEncoder.OneGoodKeySuffices` | url-encoder.js:155-165 | one letter-and-digit key passes the key check under the default pattern, however the other keys look |
| `LisURLEncoder.DefaultReservedChars` | url-encoder.js:146-154 | under the default reserved characters, the check refuses a base exactly when it holds `&`, `=`, `?` or `+` |
| `LisURLEncoder.NoReservedChars` | url-encoder.js:146-154 | an empty `RESERVED_CHARS` refuses no base |
| `LisURLEncoder.DecodeWith` | url-encoder.js:128-136 | `null` exactly when the URL regex rejects the URL; otherwise the base and the query the splitter gives |
| `LisURLEncoder.EncodeDecode` | url-encoder.js:128-168 | round trip through both sides: a base without `?`, and pairs with letter-and-digit keys and values free of `%` and `+` that are kept by the filter, decode to the same base and pairs. This assumes `AUTO_QUESTION_MARK`, that the checks accept, and that the `URL` constructor finds the query string, which it does not when the base holds `#`, as it then reads the `?` and the query as part of the fragment |
| `LisURLEncoder.StaticFields.constructor` | index.main.js:193-205 | the load-time field values. `DEBUGGING`, `X_WWW_FORM_URLENCODED` and `RFC3986` are off, `AUTO_QUESTION_MARK` is on, and the default patterns and reserved characters are set |
| `LisURLEncoder.StaticFields.Reset` | url-encoder.js:170-181 | the fields are the reset snapshot whatever they held before, so a second call changes nothing; `DEBUGGING` keeps its value |
| `LisURLEncoder.StaticFields.Encode` | url-encoder.js:138-168 | `encode` under the fields' values at the time of the call |
| `LisURLEncoder.StaticFields.Decode` | url-encoder.js:128-136 | `decode` under the fields' values at the time of the call |
| `TestCases.SpaceInValue` | src/index.test.js:6-27 | a space in a value is `%20`, or `+` in form mode |
| `TestCases.QueryOfSpacedValue` | src/index.test.js:6-27 | the pair `q`, `a b` gives the query string `q=a%20b`, or `q=a+b` in form mode |
| `TestCases.StarInValue` | src/index.test.js:90-100 | `*` stays literal with `RFC3986` off, and becomes `%2a` with it on |
| `TestCases.BadKeyRefused` | src/index.test.js:43-48 | the key `q&; ` alone makes `encode` give `""` under the load-time configuration |
| `TestCases.AnyKeyAcceptedByEmptyPattern` | src/index.test.js:59-69 | with `PARAM_KEY_REGEX` empty, any key passes and is written verbatim after the `?` |
| `TestCases.BaseEndingInQuestionMark` | src/index.test.js:71-88 | with `RESERVED_CHARS` empty, a base ending in `?` gives `??` before the query, or a single `?` with `AUTO_QUESTION_MARK` off |
| `TestCases.SerializeSpaceAsPlus` | src/index.test.js:104-118 | `URLSearchParams` writes the pair `q`, `a b` as `q=a+b` |
| `TestCases.DecodePlusAsSpace` | src/index.test.js:104-118 | the query `q=a+b` of an accepted URL decodes to the pair `q`, `a b` |
| `TestCases.DecodeRefused` | src/index.test.js:119-127 | a URL the regex rejects, such as `""` or `test`, decodes to `null` |

## Left out

- The body of `URL_REGEX` (url-encoder.js:118-122). Its lookaheads and Unicode ranges are decided by the `RegexEngine` parameter. Only the empty pattern and the default key pattern are spelled out.
- Invalid patterns. When `URL_REGEX` or `PARAM_KEY_REGEX` is not a valid regular expression, `new RegExp` throws out of `encode` or `decode` (url-encoder.js:129, 139, 156). The `RegexEngine` gives a verdict for every pattern, so the model has no such exception.
- The WHATWG `URL` constructor (url-encoder.js:77): host parsing, schemes and the query percent-encode set. The query it finds in a URL is the `UrlQuery` parameter. Only the form-urlencoded parse and the serialization that follow it are modelled.
- Characters outside ASCII. The ECMAScript URI functions' UTF-8 handling and their lone-surrogate `URIError` are not modelled, nor is the parser's replacement of invalid UTF-8 by U+FFFD. A percent-escape of `%80` or more counts as a decoding failure. So `LisURLDecode.BaseURL` gives `""` for any URL holding one anywhere, as `decodeURI` runs on the whole URL (url-encoder.js:91), where the program gives `/café` for `/caf%C3%A9`. `LisURLDecode.QueryString` gives `""` when the query holds one, or when some kept value holds one after the parser's first decoding (the query `q=%25C3%25A9`, whose value `%C3%A9` the program decodes to `é`). The program gives the pair `q`, U+FFFD for the query `q=%80`. An escape in the path only leaves `QueryString` as it is.
- Logging and the `DEBUGGING` gate (`console.warn`, including the unconditional warning at url-encoder.js:55). `DEBUGGING` exists as a field of `StaticFields` only.
- A `null` or non-array `queryArray`. `LisURLEncode.queryArray` would return `null`, and `url` would then append `?null`. The facade's `.some` would throw first (url-encoder.js:155). The model takes a sequence of pairs.
- Pairs with a missing key or value, which `encode` would write as `undefined`.
- Module plumbing: `module.exports`, `export default`, and the `_defineProperty` helper itself (index.main.js:8).
- The mocha test suite (src/index.test.js) and its shared mutable state. Its assertions appear as the `TestCases` lemmas. Those lemmas use short inputs of the same shape as the tests, and take the URL regex's verdict as a hypothesis.
- `LisURLEncoder.DecodeWith`: `decode("")` and `decode("test")` are `null` only because the default URL regex rejects them. The model states this under the hypothesis that the engine rejects them.
