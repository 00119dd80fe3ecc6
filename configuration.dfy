/** The configuration the source keeps in static fields of `LisURLEncoder`, as one
    value, with the two snapshots the source installs: the one at load time and
    the one `reset()` restores. Regular-expression matching is foreign code: the
    empty pattern and the default key pattern are modelled exactly, every other
    pattern is decided by an engine the caller supplies. */
module Configuration {
  import opened Ascii

  datatype Config = Config(
    formUrlencoded: bool,         // X_WWW_FORM_URLENCODED
    autoQuestionMark: bool,       // AUTO_QUESTION_MARK
    rfc3986: bool,                // RFC3986
    urlRegex: string,             // URL_REGEX
    reservedChars: seq<AString>,  // RESERVED_CHARS
    paramKeyRegex: string)        // PARAM_KEY_REGEX

  const DEFAULT_URL_REGEX: string :=
    "^(?:(?:(?:https?|ftp):)?\\/\\/)(?:\\S+(?::\\S*)?@)?(?:(?!(?:10|127)(?:\\.\\d{1,3}){3})(?!(?:169\\.254|192\\.168)" +
    "(?:\\.\\d{1,3}){2})(?!172\\.(?:1[6-9]|2\\d|3[0-1])(?:\\.\\d{1,3}){2})(?:[1-9]\\d?|1\\d\\d|2[01]\\d|22[0-3])" +
    "(?:\\.(?:1?\\d{1,2}|2[0-4]\\d|25[0-5])){2}(?:\\.(?:[1-9]\\d?|1\\d\\d|2[0-4]\\d|25[0-4]))|(?:(?:[a-z0-9\\u00a1-\\uffff][a-z0-9\\u00a1-\\uffff_-]{0,62}" +
    ")?[a-z0-9\\u00a1-\\uffff]\\.)+(?:[a-z\\u00a1-\\uffff]{2,}\\.?))(?::\\d{2,5})?(?:[/?#]\\S*)?$"

  const DEFAULT_RESERVED_CHARS: seq<AString> := ["&", "=", "?", "+"]

  const DEFAULT_PARAM_KEY_REGEX: string := "^[a-zA-Z0-9]*$"

  /** The values the static field initialisers give at load time. */
  const INITIAL: Config :=
    Config(false, true, false, DEFAULT_URL_REGEX, DEFAULT_RESERVED_CHARS, DEFAULT_PARAM_KEY_REGEX)

  /** The values `reset()` assigns. */
  const AFTER_RESET: Config :=
    Config(false, true, true, DEFAULT_URL_REGEX, DEFAULT_RESERVED_CHARS, DEFAULT_PARAM_KEY_REGEX)

  /** `new RegExp(pattern, "g").test(input)` for the patterns this model does not
      spell out. */
  type RegexEngine = (string, AString) -> bool

  /** `new RegExp(pattern, "g").test(input)`. A fresh object starts at
      `lastIndex` 0, so the global flag changes nothing. The empty pattern
      matches every string; `^[a-zA-Z0-9]*$` matches exactly the strings of
      ASCII letters and digits, the empty one included. */
  function RegexTest(engine: RegexEngine, pattern: string, input: AString): bool
  {
    if pattern == [] then true
    else if pattern == DEFAULT_PARAM_KEY_REGEX then IsAlnumString(input)
    else engine(pattern, input)
  }

  // ---------------------------------------------------------------------------
  // Lemmas

  /** The load-time snapshot and the reset snapshot differ in `RFC3986` only. */
  lemma InitialVersusReset()
    ensures !INITIAL.rfc3986 && AFTER_RESET.rfc3986
    ensures INITIAL.(rfc3986 := true) == AFTER_RESET
  {
  }

  /** The default key pattern accepts exactly the letter-and-digit keys. */
  lemma DefaultKeyPattern(engine: RegexEngine, key: AString)
    ensures RegexTest(engine, DEFAULT_PARAM_KEY_REGEX, key) <==> IsAlnumString(key)
  {
  }

  /** The default key pattern accepts the empty key and `q`, and rejects `q&; `;
      the empty pattern accepts `q&; `. */
  lemma KeyPatternExamples(engine: RegexEngine)
    ensures RegexTest(engine, DEFAULT_PARAM_KEY_REGEX, "")
    ensures RegexTest(engine, DEFAULT_PARAM_KEY_REGEX, "q")
    ensures !RegexTest(engine, DEFAULT_PARAM_KEY_REGEX, "q&; ")
    ensures RegexTest(engine, "", "q&; ")
  {
    var bad: AString := "q&; ";
    assert !IsAlnum(bad[1]);
  }
}
