/** The decision table of `automatic_translate_error_check`: the engine
    name, whether the key is empty, and the test request's response code
    decide the error flag and the message. */
module KeyCheck {
  import opened Adapter

  /** The array `[ 'message' => …, 'error' => … ]`. */
  datatype Verdict = Verdict(message: string, error: bool)

  /** What `wp_remote_retrieve_response_code` gives for the test request: a
      status code, or "" when the request itself failed. */
  datatype ResponseCode = Status(code: int) | NoResponse

  /** The provider message tables: `trp_gt_response_codes`, and the DeepL
      add-on's `deepl_response_codes` when either DeepL class provides one. */
  datatype MessageTables = MessageTables(google: ResponseCode -> string, deepl: Option<ResponseCode -> string>)

  const GoogleEngine := "google_translate_v2"
  const DeepLEngine := "deepl"
  const GoogleKeyPrompt := "Please enter your Google Translate key."
  const DeepLKeyPrompt := "Please enter your DeepL API key."

  /** `automatic_translate_error_check($translator, $engine, $key)`, with the
      response the test request would get. */
  function ErrorCheck(engine: string, key: ApiKey, response: ResponseCode, tables: MessageTables): (v: Verdict)
    ensures v.error ==> engine == GoogleEngine || engine == DeepLEngine
    ensures !v.error ==> v.message == ""
  {
    if engine == GoogleEngine then
      if KeyBlank(key) then Verdict(GoogleKeyPrompt, true)
      else if response != Status(200) then Verdict(tables.google(response), true)
      else Verdict("", false)
    else if engine == DeepLEngine then
      if KeyBlank(key) then Verdict(DeepLKeyPrompt, true)
      else if response != Status(200) && tables.deepl.Some? then Verdict(tables.deepl.value(response), true)
      else Verdict("", false)
    else Verdict("", false)
  }

  /** An error is reported exactly for a known engine whose key is empty, or
      whose test request fails with a table to explain it. */
  lemma ErrorExactly(engine: string, key: ApiKey, response: ResponseCode, tables: MessageTables)
    ensures ErrorCheck(engine, key, response, tables).error <==>
      (engine == GoogleEngine || engine == DeepLEngine) &&
      (KeyBlank(key) || (response != Status(200) && (engine == GoogleEngine || tables.deepl.Some?)))
  {
  }

  /** An engine the table does not know is never in error. */
  lemma UnknownEngineIsFine(engine: string, key: ApiKey, response: ResponseCode, tables: MessageTables)
    requires engine != GoogleEngine && engine != DeepLEngine
    ensures ErrorCheck(engine, key, response, tables) == Verdict("", false)
  {
  }

  /** An empty key is an error with the engine's prompt, and no response
      matters: the test request is not made. */
  lemma EmptyKeyPrompts(engine: string, key: ApiKey, r1: ResponseCode, r2: ResponseCode, tables: MessageTables)
    requires KeyBlank(key)
    ensures engine == GoogleEngine ==> ErrorCheck(engine, key, r1, tables) == Verdict(GoogleKeyPrompt, true)
    ensures engine == DeepLEngine ==> ErrorCheck(engine, key, r1, tables) == Verdict(DeepLKeyPrompt, true)
    ensures ErrorCheck(engine, key, r1, tables) == ErrorCheck(engine, key, r2, tables)
  {
  }

  /** A key whose test request answers 200 is accepted with no message. */
  lemma SuccessfulTestIsFine(engine: string, key: ApiKey, tables: MessageTables)
    requires !KeyBlank(key)
    ensures ErrorCheck(engine, key, Status(200), tables) == Verdict("", false)
  {
  }

  /** A failing test request is reported with the provider's message, except
      for DeepL without its message table, which then accepts any key. */
  lemma FailedTestReported(engine: string, key: ApiKey, response: ResponseCode, tables: MessageTables)
    requires !KeyBlank(key) && response != Status(200)
    ensures engine == GoogleEngine ==> ErrorCheck(engine, key, response, tables) == Verdict(tables.google(response), true)
    ensures engine == DeepLEngine && tables.deepl.Some? ==> ErrorCheck(engine, key, response, tables) == Verdict(tables.deepl.value(response), true)
    ensures engine == DeepLEngine && tables.deepl.None? ==> !ErrorCheck(engine, key, response, tables).error
  {
  }

  /** The base class has no key, so for either known engine its key is
      reported as missing. */
  lemma BaseKeyAlwaysMissing(engine: string, response: ResponseCode, tables: MessageTables)
    requires engine == GoogleEngine || engine == DeepLEngine
    ensures ErrorCheck(engine, BaseEngine().apiKey, response, tables).error
  {
  }
}
