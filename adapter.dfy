/** What the translator knows about its settings and about the engine
    adapter it is part of. The optional adapter methods that the source
    probes with `method_exists` are capability flags here; the adapter's
    own answers (its key, its extra validation, its bulk translation, its
    language-code mapping) are values and functions supplied from outside. */
module Adapter {
  import opened Text

  datatype Option<+T> = None | Some(value: T)

  /** What `get_api_key()` returns: `false` in the base class, a string in an
      engine adapter. */
  datatype ApiKey = NoKey | Key(text: string)

  /** `empty()` on that value. */
  predicate KeyBlank(k: ApiKey) {
    k.NoKey? || Blank(k.text)
  }

  /** A key is missing when it is `false`, "" or "0"; any other string is a key. */
  lemma KeyBlankCases(s: string)
    ensures KeyBlank(NoKey) && KeyBlank(Key("")) && KeyBlank(Key("0"))
    ensures s != "" && s != "0" ==> !KeyBlank(Key(s))
  {
  }

  /** The settings the translator reads; an absent setting is "". */
  datatype Settings = Settings(
    defaultLanguage: string,            // 'default-language'
    translationLanguages: seq<string>,  // 'translation-languages'
    machineTranslation: string,         // machine translation settings: 'machine-translation'
    translationEngine: string,          // machine translation settings: 'translation-engine'
    blockCrawlers: string)              // machine translation settings: 'block-crawlers'

  /** How the source language reaches `translate_array`: left out of the call
      altogether, or passed (possibly as null). */
  datatype SourceArg = Omitted | Passed(code: Option<string>)

  /** One call of the adapter's `translate_array`: the encoded strings by
      their array key, and the two language arguments. */
  datatype Request = Request(strings: map<nat, string>, target: string, source: SourceArg)

  /** The engine adapter, as far as the translator's own code can see it. */
  datatype Engine = Engine(
    apiKey: ApiKey,                                   // get_api_key()
    extraRequestValidations: string -> bool,          // extra_request_validations($to_language)
    hasTranslateArray: bool,                          // method_exists translate_array
    translateArray: Request -> seq<(nat, string)>,    // its answer, an ordered key => string array
    hasSupportedLanguages: bool,                      // method_exists get_supported_languages
    hasEngineSpecificLanguageCodes: bool,             // method_exists get_engine_specific_language_codes
    engineSpecificLanguageCodes: seq<string> -> seq<string>,
    hasCheckFormality: bool)                          // method_exists check_formality

  /** A translator instance: its settings, the application-code to ISO-code
      table its constructor looked up, and its engine adapter. */
  datatype Config = Config(settings: Settings, isoCodes: map<string, string>, engine: Engine)

  /** The base class's `get_api_key`: no key at all. */
  function BaseApiKey(): (k: ApiKey)
    ensures KeyBlank(k)
  {
    NoKey
  }

  /** The base class's `extra_request_validations`: accepts every language. */
  function BaseExtraRequestValidations(toLanguage: string): (ok: bool)
    ensures ok
  {
    true
  }

  /** The base class on its own: the two stubs above, and none of the
      optional methods. */
  function BaseEngine(): (e: Engine)
    ensures KeyBlank(e.apiKey) && forall l :: e.extraRequestValidations(l)
    ensures !e.hasTranslateArray && !e.hasSupportedLanguages && !e.hasEngineSpecificLanguageCodes && !e.hasCheckFormality
  {
    Engine(BaseApiKey(), BaseExtraRequestValidations, false, (r: Request) => [],
           false, false, (languages: seq<string>) => languages, false)
  }
}
