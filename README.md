# TranslatePress machine translator, modelled in Dafny

This project models `TRP_Machine_Translator`, the base class that every
machine-translation engine adapter of the TranslatePress plugin extends.
The class does not translate anything itself. It does the bookkeeping
around the engine call, in four parts:

- **The placeholder codec.** `translate` hides the characters that engines
  mangle (`%s`, `%`, `$`, `#`) behind markers `1TP1T`, `1TP2T`, … before
  sending strings out. Afterwards it restores them, ignoring case.
  `translate` also de-duplicates its input and files each answer under the
  original string it came from.
- **The request gates.** These are `verify_request_parameters`, the
  deprecated `verify_request`, and the crawler test `is_crawler`.
- **The supported-languages cache.** `check_languages_availability` keeps
  one record per engine in the stored option `trp_db_stored_data`. It
  refreshes the active engine's record under a stated condition, then
  checks set inclusion. `is_available` and
  `get_last_checked_supported_languages` sit on top of it.
- **The API-key decision table.** `automatic_translate_error_check` and
  `is_correct_api_key`.

How the modules are laid out:

- `Text`: the PHP string built-ins the class relies on. These are `empty()`
  on strings, `str_replace` and `str_ireplace` (one search string, or arrays
  folded left to right), and the decimal rendering of an integer.
- `Codec`: the markers and the encode/decode pair. The round trip is proved
  through a single-pass reference scan (`Scan`).
- `Adapter`: the settings, the engine adapter as capability flags plus
  supplied functions, and the base-class stubs.
- `Gates`: the three request gates.
- `Dispatch`: the functions that specify `translate`.
- `LanguageCache`: the functions that specify the cache.
- `KeyCheck`: the functions that specify the key-check table.
- `MachineTranslator`: two classes. `OptionStore` is the stored option.
  `Translator` holds the methods that update that option and
  `correct_api_key`, and `Translate`. The two loops of `translate` are the
  methods `EncodeStrings` and `FileAnswers` beside the classes. Each method
  is proved equal to the function that specifies it.

Everything the class obtains from outside is a parameter or a field of
an input datatype. This covers:

- the hooks (`apply_filters`) and the quota logger;
- the user agent and `sanitize_text_field`;
- `html_entity_decode` and the shortcode runner;
- `date()`;
- the HTTP answers of `translate_array`, `get_supported_languages`,
  `check_formality` and `test_request`;
- the provider message tables.

The optional adapter methods that the class probes with `method_exists`
are booleans.

## Model

All source paths are under `wp-content/plugins/translatepress-multilingual/includes/`; the path is written out in full in each row.

| member | source | states |
|---|---|---|
| Text.Lower | wp-content/plugins/translatepress-multilingual/includes/class-machine-translator.php:342 | The ASCII case folding behind `str_ireplace` and the `/i` flag. No contract of its own: `Text.LowerIsAscii` states what it changes, and `Text.IReplace` and `Gates.AtomMatches` use it. |
| Text.LowerIsAscii | wp-content/plugins/translatepress-multilingual/includes/class-machine-translator.php:342 | Lower-casing changes exactly the 26 ASCII capitals; `Ä` stays `Ä`. |
| Text.Blank | wp-content/plugins/translatepress-multilingual/includes/class-machine-translator.php:230-232 | `empty()` on a string, with "0" counted as empty. No contract of its own: `Text.BlankCases` states which strings it holds for. |
| Text.BlankCases | wp-content/plugins/translatepress-multilingual/includes/class-machine-translator.php:230-232 | `""` and `"0"` are empty; `"00"`, `" "`, `"0.0"` and `"false"` are not. |
| Text.ReplaceAbsent | wp-content/plugins/translatepress-multilingual/includes/class-machine-translator.php:328 | `str_replace` for one search string returns the subject unchanged when the search string does not occur. |
| Text.IReplaceAbsent | wp-content/plugins/translatepress-multilingual/includes/class-machine-translator.php:342 | `str_ireplace` for one search string returns the subject unchanged when the search string does not occur, ignoring case. |
| Text.Replace | wp-content/plugins/translatepress-multilingual/includes/class-machine-translator.php:328 | `str_replace` with one search string. No contract of its own: `Text.ReplaceAbsent` states when it leaves the subject unchanged, and the round trip in `Codec.RoundTrip` states what it does to text with tokens. |
| Text.IReplace | wp-content/plugins/translatepress-multilingual/includes/class-machine-translator.php:342 | `str_ireplace` with one search string, matching ignoring ASCII case. No contract of its own: its properties are stated by `Text.IReplaceAbsent`, `Codec.DecodeAnyCase` and `Codec.RoundTrip`. |
| Text.FirstOr | wp-content/plugins/translatepress-multilingual/includes/class-machine-translator.php:328 | The replacement paired with the next search string, `""` once the replacement array has run out. No contract of its own: `Text.ReplaceEachPadsWithEmpty` states its effect. |
| Text.ReplaceEachPadsWithEmpty | wp-content/plugins/translatepress-multilingual/includes/class-machine-translator.php:328 | With no replacements left, `str_replace` replaces each search string by `""`. |
| Text.ReplaceEach | wp-content/plugins/translatepress-multilingual/includes/class-machine-translator.php:328 | The array form of `str_replace`, a left fold over the search list. No contract of its own: `Text.ReplaceEachAbsent` and `Codec.EncodeDefault` carry its properties. |
| Text.IReplaceEach | wp-content/plugins/translatepress-multilingual/includes/class-machine-translator.php:342 | The array form of `str_ireplace`, a left fold over the search list. No contract of its own: `Text.IReplaceEachAbsent` and `Codec.RoundTrip` carry its properties. |
| Text.NatToString | wp-content/plugins/translatepress-multilingual/includes/class-machine-translator.php:300 | The decimal rendering of `$i` in `'1TP' . $i . 'T'` has at least one digit, and at least two from 10 on. |
| Text.NatToStringInjective | wp-content/plugins/translatepress-multilingual/includes/class-machine-translator.php:300 | Different counters are rendered as different digit strings. |
| Text.ReplaceEachAbsent | wp-content/plugins/translatepress-multilingual/includes/class-machine-translator.php:328 | The array form of `str_replace` leaves a subject alone when none of its search strings occurs. |
| Text.IReplaceEachAbsent | wp-content/plugins/translatepress-multilingual/includes/class-machine-translator.php:342 | The array form of `str_ireplace` leaves a subject alone when none of its search strings occurs, ignoring case. |
| Codec.Marker | wp-content/plugins/translatepress-multilingual/includes/class-machine-translator.php:300 | The marker `'1TP' . $i . 'T'`. No contract of its own: `Codec.MarkerInjective` states that different positions get different markers. |
| Codec.Placeholders | wp-content/plugins/translatepress-multilingual/includes/class-machine-translator.php:297-303 | What `get_placeholders($count)` returns. No contract of its own: `Codec.GetPlaceholders` is proved equal to it, and `Codec.PlaceholdersDistinct` and `Codec.DefaultPlaceholders` state its contents. |
| Codec.GetPlaceholders | wp-content/plugins/translatepress-multilingual/includes/class-machine-translator.php:297-303 | The counted loop returns exactly `count` markers. The i-th element (from 0) is `"1TP" + (i+1) + "T"`. |
| Codec.MarkerInjective | wp-content/plugins/translatepress-multilingual/includes/class-machine-translator.php:297-303 | Markers of different counters differ. |
| Codec.PlaceholdersDistinct | wp-content/plugins/translatepress-multilingual/includes/class-machine-translator.php:297-303 | The markers are pairwise distinct. |
| Codec.Encode | wp-content/plugins/translatepress-multilingual/includes/class-machine-translator.php:328 | The replacement before the engine call. No contract of its own: `Codec.EncodeDefault`, `Codec.EncodedHasNoExcludedChar` and `Codec.PercentSIsOneToken` state what it produces. |
| Codec.Decode | wp-content/plugins/translatepress-multilingual/includes/class-machine-translator.php:342 | The replacement after the engine call. No contract of its own: `Codec.RoundTrip` states that it undoes `Encode`, and `Codec.DecodeAnyCase` that it does so whatever the case of the markers. |
| Codec.DefaultExcluded | wp-content/plugins/translatepress-multilingual/includes/class-machine-translator.php:318 | The default token list `%s`, `%`, `$`, `#`, in that order. A constant: `Codec.EncodeDefault`, `Codec.PercentSIsOneToken` and `Codec.RoundTrip` are stated for it. |
| Codec.DefaultPlaceholders | wp-content/plugins/translatepress-multilingual/includes/class-machine-translator.php:318-319 | For the default token list the markers are `1TP1T`…`1TP4T`. |
| Codec.EncodeDefault | wp-content/plugins/translatepress-multilingual/includes/class-machine-translator.php:318-328 | Encoding with the default list in list order equals one left-to-right scan. The scan replaces `%s` first, then `%`, `$` and `#`, and copies every other character. |
| Codec.PercentSIsOneToken | wp-content/plugins/translatepress-multilingual/includes/class-machine-translator.php:317-318 | `"%s"` becomes the single marker `1TP1T`, not `1TP2Ts`. |
| Codec.EncodedHasNoExcludedChar | wp-content/plugins/translatepress-multilingual/includes/class-machine-translator.php:318-328 | With the default list, the encoded text holds no `%`, `$` or `#`. |
| Codec.DecodeIgnoresCase | wp-content/plugins/translatepress-multilingual/includes/class-machine-translator.php:342 | One concrete instance: the lower-cased marker `1tp2t` decodes to `%`. `Codec.DecodeAnyCase` states the general case. |
| Codec.DecodeAnyCase | wp-content/plugins/translatepress-multilingual/includes/class-machine-translator.php:339-342 | For every marker-free text and every recasing of the four default markers, decoding the encoded text written with the recased markers gives the text back. |
| Codec.RoundTrip | wp-content/plugins/translatepress-multilingual/includes/class-machine-translator.php:318-342 | With the default list, decoding the encoded text gives the text back, whenever the text holds no `1tp` in any case. |
| Codec.MarkerLikeTextBreaksRoundTrip | wp-content/plugins/translatepress-multilingual/includes/class-machine-translator.php:328-342 | The precondition is needed: `"1TP%"` encodes to `"1TP1TP2T"`, which decodes to `"%sP2T"`. |
| Adapter.KeyBlank | wp-content/plugins/translatepress-multilingual/includes/class-machine-translator.php:230 | `empty(get_api_key())`. No contract of its own: `Adapter.KeyBlankCases` states which keys it holds for. |
| Adapter.KeyBlankCases | wp-content/plugins/translatepress-multilingual/includes/class-machine-translator.php:230 | A key is missing when it is `false`, `""` or `"0"`; every other string is a key. |
| Adapter.BaseEngine | wp-content/plugins/translatepress-multilingual/includes/class-machine-translator.php:352-360 | The base class on its own has an empty key, accepts every language, and has none of the optional methods (`translate_array`, `get_supported_languages`, `get_engine_specific_language_codes`, `check_formality`). |
| Adapter.BaseApiKey | wp-content/plugins/translatepress-multilingual/includes/class-machine-translator.php:354-356 | The base class's key (`false`) is empty. |
| Adapter.BaseExtraRequestValidations | wp-content/plugins/translatepress-multilingual/includes/class-machine-translator.php:358-360 | The base class's extra validation accepts every language. |
| Gates.IsCrawler | wp-content/plugins/translatepress-multilingual/includes/class-machine-translator.php:288-295 | A crawler has a user agent and a non-empty list of alternatives. `Gates.PlainAlternativeFound`, `Gates.BotIsCrawler` and `Gates.PatternIgnoresCase` state which user agents match. |
| Gates.EmptyUserAgentIsNoCrawler | wp-content/plugins/translatepress-multilingual/includes/class-machine-translator.php:289-294 | A user-agent header that is set but empty after sanitising is not a crawler under the default pattern: only `isset` is tested, and no default alternative matches the empty string. |
| Gates.AtomsNonEmpty | wp-content/plugins/translatepress-multilingual/includes/class-machine-translator.php:292-294 | An alternative with at least one character reads as at least one atom, so it cannot match the empty string. |
| Gates.Atoms | wp-content/plugins/translatepress-multilingual/includes/class-machine-translator.php:292-294 | Reads one alternative of the `/…/i` pattern as atoms. No contract of its own: `Gates.AtomsNonEmpty` and `Gates.PlainWordAtoms` state how it reads alternatives. |
| Gates.PatternMatches | wp-content/plugins/translatepress-multilingual/includes/class-machine-translator.php:294 | The `preg_match('/' . $crawlers . '/i', …)` test. No contract of its own: `Gates.PlainAlternativeFound`, `Gates.EmptyAlternativeMatchesAll` and `Gates.PatternIgnoresCase` state when it holds. |
| Gates.NoUserAgentIsNoCrawler | wp-content/plugins/translatepress-multilingual/includes/class-machine-translator.php:289-290 | A request without a user agent is never a crawler. |
| Gates.EmptyAlternativeMatchesAll | wp-content/plugins/translatepress-multilingual/includes/class-machine-translator.php:292-294 | An empty alternative, as the filter returning `''` produces, makes every user agent a crawler. |
| Gates.PlainAlternativeFound | wp-content/plugins/translatepress-multilingual/includes/class-machine-translator.php:292-294 | A user agent that contains any plain-word alternative of the pattern, in any case, is a crawler. |
| Gates.DefaultCrawlers | wp-content/plugins/translatepress-multilingual/includes/class-machine-translator.php:292 | The 35 default alternatives, in order. A constant: `Gates.BotIsCrawler` uses its alternative `bot` and `Gates.EmptyUserAgentIsNoCrawler` that none of them is empty. |
| Gates.BotIsCrawler | wp-content/plugins/translatepress-multilingual/includes/class-machine-translator.php:292-294 | With the default alternatives, every user agent containing `bot` in any case (Googlebot, bingbot) is a crawler. |
| Gates.PatternIgnoresCase | wp-content/plugins/translatepress-multilingual/includes/class-machine-translator.php:294 | The `/i` pattern gives the same answer for a user agent and for its lower-cased form. |
| Gates.IsoCode | wp-content/plugins/translatepress-multilingual/includes/class-machine-translator.php:262-264 | The `machine_translation_codes` lookup, a missing key reading as `""`. No contract of its own: `Gates.MissingIsoCodeRejected` states the effect of a missing key. |
| Gates.MissingIsoCodeRejected | wp-content/plugins/translatepress-multilingual/includes/class-machine-translator.php:262-263 | A target or source missing from the ISO-code table is always rejected by the two-language check. |
| Gates.CrawlerBlocked | wp-content/plugins/translatepress-multilingual/includes/class-machine-translator.php:273 | Blocking is `yes` and the request comes from a crawler. No contract of its own: `Gates.VerifyRequestParametersExactly` and `Gates.VerifyRequestExactly` state its role in both checks. |
| Gates.VerifyRequestParameters | wp-content/plugins/translatepress-multilingual/includes/class-machine-translator.php:259-281 | An accepted request has a key, different ISO codes for its two languages, no crawler block and no exceeded quota. |
| Gates.VerifyRequestParametersExactly | wp-content/plugins/translatepress-multilingual/includes/class-machine-translator.php:259-281 | The two-language check passes exactly when all of these hold: a non-empty key; both codes non-empty; both ISO codes non-empty and different; the extra validation accepts; not (crawlers blocked and crawler); quota not exceeded. |
| Gates.SameIsoCodeRejected | wp-content/plugins/translatepress-multilingual/includes/class-machine-translator.php:262-264 | Two codes with the same ISO code are rejected. |
| Gates.BaseClassRejectsEverything | wp-content/plugins/translatepress-multilingual/includes/class-machine-translator.php:228-281 | In the base class both request checks reject every request. |
| Gates.VerifyRequest | wp-content/plugins/translatepress-multilingual/includes/class-machine-translator.php:228-250 | An accepted deprecated request has a target other than the default language, a default language with a non-empty ISO code, a key, no crawler block and no exceeded quota. |
| Gates.VerifyRequestExactly | wp-content/plugins/translatepress-multilingual/includes/class-machine-translator.php:228-250 | The deprecated check passes exactly when all of these hold: a non-empty key; a non-empty target other than the default language; a default language with a non-empty ISO code; the engine's extra validation of the target; no crawler block when blocking is `yes`; no exceeded quota. |
| Gates.LegacyAcceptsWhatPairAccepts | wp-content/plugins/translatepress-multilingual/includes/class-machine-translator.php:228-281 | Whatever the two-language check accepts from the default language, the deprecated check accepts too. |
| Gates.LegacyIgnoresTargetIsoCode | wp-content/plugins/translatepress-multilingual/includes/class-machine-translator.php:229-233 | The deprecated check does not depend on the target's own ISO code. |
| Gates.LegacyAcceptsUnresolvedTarget | wp-content/plugins/translatepress-multilingual/includes/class-machine-translator.php:228-281 | The converse fails: a target without an ISO code passes the deprecated check and fails the two-language one. |
| Dispatch.EncodeForEngine | wp-content/plugins/translatepress-multilingual/includes/class-machine-translator.php:328-329 | One string as sent: `html_entity_decode`, then `str_replace`, then the shortcode hook, in that order. No contract of its own: `Dispatch.RequestShape`, `Dispatch.EngineNeverSeesExcludedCharacters` and `MachineTranslator.EncodeStrings` are stated through it. |
| Dispatch.Reaches | wp-content/plugins/translatepress-multilingual/includes/class-machine-translator.php:314 | The guard of `translate`. No contract of its own: `Dispatch.Translation` sends a request exactly when it holds, and `Dispatch.NothingSentUnlessReached` states the other case. |
| Dispatch.SourceArgument | wp-content/plugins/translatepress-multilingual/includes/class-machine-translator.php:332-337 | The source language is left out only for the DeepL 1.0.0 add-on. No contract of its own: `Dispatch.RequestShape` states it. |
| Dispatch.EngineRequest | wp-content/plugins/translatepress-multilingual/includes/class-machine-translator.php:322-337 | The call of `translate_array`. No contract of its own: `Dispatch.RequestShape` and `Dispatch.EngineNeverSeesExcludedCharacters` state what it holds. |
| Dispatch.Original | wp-content/plugins/translatepress-multilingual/includes/class-machine-translator.php:342 | `$original_strings[$key]`, with the null key `""` for a key the originals lack. No contract of its own: `Dispatch.ResultKeys` and `Dispatch.CollectKeys` state how result keys arise from it. |
| Dispatch.Unique | wp-content/plugins/translatepress-multilingual/includes/class-machine-translator.php:322 | Every kept key is an input position holding the same string, and the first string is always kept. `Dispatch.UniqueCovers` and `Dispatch.UniqueInjective` state the rest. |
| Dispatch.UniqueCovers | wp-content/plugins/translatepress-multilingual/includes/class-machine-translator.php:322 | `array_unique` keeps every input string, under a key no later than any of its occurrences. |
| Dispatch.UniqueInjective | wp-content/plugins/translatepress-multilingual/includes/class-machine-translator.php:322 | `array_unique` keeps no string twice. |
| Dispatch.Collect | wp-content/plugins/translatepress-multilingual/includes/class-machine-translator.php:339-344 | The decode loop as a left fold. No contract of its own: `Dispatch.CollectKeys` and `Dispatch.CollectAt` state its keys and values. |
| Dispatch.CollectKeys | wp-content/plugins/translatepress-multilingual/includes/class-machine-translator.php:339-344 | The filed answers have exactly the originals of the answered keys as their keys. |
| Dispatch.CollectAt | wp-content/plugins/translatepress-multilingual/includes/class-machine-translator.php:339-344 | An original whose answers all decode to one value is filed with that value. |
| Dispatch.Translation | wp-content/plugins/translatepress-multilingual/includes/class-machine-translator.php:313-349 | A request is sent exactly when the guard of `translate` holds; without one the result is empty. `Dispatch.ResultKeys` and `Dispatch.EchoRoundTrip` state the rest. |
| Dispatch.NothingSentUnlessReached | wp-content/plugins/translatepress-multilingual/includes/class-machine-translator.php:313-348 | An empty input, a missing `translate_array` or the disable flag means no engine call and an empty result. |
| Dispatch.BaseClassTranslatesNothing | wp-content/plugins/translatepress-multilingual/includes/class-machine-translator.php:314 | The base class returns an empty result. |
| Dispatch.RequestShape | wp-content/plugins/translatepress-multilingual/includes/class-machine-translator.php:322-337 | The request holds one encoded string per kept key. Only the DeepL 1.0.0 add-on is called without the source language. |
| Dispatch.EngineNeverSeesExcludedCharacters | wp-content/plugins/translatepress-multilingual/includes/class-machine-translator.php:318-330 | With the default list and a neutral shortcode hook, no string sent holds `%`, `$` or `#`. |
| Dispatch.ResultKeys | wp-content/plugins/translatepress-multilingual/includes/class-machine-translator.php:339-344 | Every result key is an input string or the null key `""`. A string is a result key exactly when the engine answered the key of its first occurrence, or, for `""`, a key the originals lack. |
| Dispatch.EchoRoundTrip | wp-content/plugins/translatepress-multilingual/includes/class-machine-translator.php:313-349 | Suppose the engine echoes its strings, the token list is the default one and the shortcode hook is neutral. Then each input string maps to its entity-decoded form, provided that form holds no marker-like text. |
| LanguageCache.NeverChecked | wp-content/plugins/translatepress-multilingual/includes/class-machine-translator.php:69 | `empty(…['last-checked'])`, with an absent date, `""` and `"0"` all counting as empty. No contract of its own: `LanguageCache.RefreshExactlyWhenNeeded` and `LanguageCache.LastCheckedWhenPresent` use it. |
| LanguageCache.RecordOf | wp-content/plugins/translatepress-multilingual/includes/class-machine-translator.php:73-74 | The active engine's record, or `EmptyRecord` when there is none. No contract of its own: `LanguageCache.MissingRecordCreated` and `LanguageCache.OtherEnginesUntouched` use it. |
| LanguageCache.EmptyRecord | wp-content/plugins/translatepress-multilingual/includes/class-machine-translator.php:74 | The record `array('languages' => array())` created for an engine that has none. A constant: `LanguageCache.MissingRecordCreated` states that the refresh starts from it. |
| LanguageCache.MissingRecordCreated | wp-content/plugins/translatepress-multilingual/includes/class-machine-translator.php:69-81 | An engine without a record always gets one: the refresh runs, starts from the empty record, and stores formality only when `check_formality` exists. |
| LanguageCache.NeedsRefresh | wp-content/plugins/translatepress-multilingual/includes/class-machine-translator.php:69 | The refresh condition. No contract of its own: `LanguageCache.RefreshExactlyWhenNeeded` and `LanguageCache.RefreshSettles` state it. |
| LanguageCache.AfterRefresh | wp-content/plugins/translatepress-multilingual/includes/class-machine-translator.php:69-83 | The option after the refresh step. No contract of its own: `LanguageCache.RefreshExactlyWhenNeeded`, `LanguageCache.OtherEnginesUntouched` and `LanguageCache.SecondCheckFetchesNothing` state what it changes. |
| LanguageCache.AllSupported | wp-content/plugins/translatepress-multilingual/includes/class-machine-translator.php:87 | `!array_diff($codes, $supported)`. No contract of its own: `LanguageCache.AvailabilityIsInclusion` states the answer through it. |
| LanguageCache.FailsOpen | wp-content/plugins/translatepress-multilingual/includes/class-machine-translator.php:57 | Either introspection method is missing. No contract of its own: `LanguageCache.FailOpen` and `LanguageCache.BaseClassAlwaysAvailable` state its effect. |
| LanguageCache.BaseClassAlwaysAvailable | wp-content/plugins/translatepress-multilingual/includes/class-machine-translator.php:57-59 | For the base class every availability check answers yes and leaves the option unchanged. |
| LanguageCache.Refreshed | wp-content/plugins/translatepress-multilingual/includes/class-machine-translator.php:76-81 | A refresh stores the fetched languages and the date. Formality is stored only when the engine can report it; otherwise the stored value is kept. |
| LanguageCache.Availability | wp-content/plugins/translatepress-multilingual/includes/class-machine-translator.php:56-90 | Without both introspection methods the answer is yes and the option is unchanged. Otherwise the new option is the refreshed one. |
| LanguageCache.FailOpen | wp-content/plugins/translatepress-multilingual/includes/class-machine-translator.php:57-59 | Without both introspection methods the answer is yes and nothing is stored. |
| LanguageCache.AvailabilityIsInclusion | wp-content/plugins/translatepress-multilingual/includes/class-machine-translator.php:85-89 | Otherwise the answer is the filter applied to this test: is every engine code of the requested languages in the active engine's list. |
| LanguageCache.RefreshExactlyWhenNeeded | wp-content/plugins/translatepress-multilingual/includes/class-machine-translator.php:69-83 | The active record is rewritten exactly when one holds: the last check is empty, the check is forced, or formality can be checked but is unset. |
| LanguageCache.OtherEnginesUntouched | wp-content/plugins/translatepress-multilingual/includes/class-machine-translator.php:69-83 | Other engines' records are unchanged. |
| LanguageCache.RefreshSettles | wp-content/plugins/translatepress-multilingual/includes/class-machine-translator.php:69-81 | A record refreshed with a non-empty date needs no further refresh unless forced. |
| LanguageCache.SecondCheckFetchesNothing | wp-content/plugins/translatepress-multilingual/includes/class-machine-translator.php:69-83 | A second, unforced check after a refresh stores nothing new. |
| LanguageCache.IsAvailableResult | wp-content/plugins/translatepress-multilingual/includes/class-machine-translator.php:40-54 | A yes needs machine translation set to `yes`. An empty list, or an engine without both introspection methods, leaves the option unchanged. |
| LanguageCache.IsAvailableShortcuts | wp-content/plugins/translatepress-multilingual/includes/class-machine-translator.php:40-54 | `is_available` is false unless machine translation is `yes`, and true for an empty list. Neither case touches the option. |
| LanguageCache.LastCheckedStore | wp-content/plugins/translatepress-multilingual/includes/class-machine-translator.php:92-96 | The option after `get_last_checked_supported_languages`. No contract of its own: `LanguageCache.LastCheckedWhenPresent` and `LanguageCache.LastCheckedIsStale` state both paths. |
| LanguageCache.LastCheckedAsWritten | wp-content/plugins/translatepress-multilingual/includes/class-machine-translator.php:92-98 | With a date already stored, that date is returned. |
| LanguageCache.LastCheckedWhenPresent | wp-content/plugins/translatepress-multilingual/includes/class-machine-translator.php:92-98 | With a date already stored, nothing is fetched and the stored date is returned. |
| LanguageCache.LastCheckedIsStale | wp-content/plugins/translatepress-multilingual/includes/class-machine-translator.php:92-98 | On the refresh path the returned date differs from the one just stored. |
| LanguageCache.LastCheckedCorrected | wp-content/plugins/translatepress-multilingual/includes/class-machine-translator.php:92-98 | Reading the date after the check gives a non-empty date whenever the engine can report its languages and the clock gives a non-empty date. It agrees with the source when a date was already stored. |
| KeyCheck.ErrorCheck | wp-content/plugins/translatepress-multilingual/includes/class-machine-translator.php:125-185 | Only Google or DeepL can be in error, and no error means an empty message. `KeyCheck.ErrorExactly` states both directions of when the error is set. |
| KeyCheck.ErrorExactly | wp-content/plugins/translatepress-multilingual/includes/class-machine-translator.php:125-185 | An error is reported exactly for Google or DeepL when either the key is empty, or the test request is not 200 and a message table exists (always for Google; for DeepL only with the add-on's table). |
| KeyCheck.UnknownEngineIsFine | wp-content/plugins/translatepress-multilingual/includes/class-machine-translator.php:174-175 | Another engine name gives no error and an empty message. |
| KeyCheck.EmptyKeyPrompts | wp-content/plugins/translatepress-multilingual/includes/class-machine-translator.php:137-155 | An empty key gives the engine's prompt, whatever the response would be. |
| KeyCheck.SuccessfulTestIsFine | wp-content/plugins/translatepress-multilingual/includes/class-machine-translator.php:141-172 | A non-empty key with a 200 test response gives no error. |
| KeyCheck.FailedTestReported | wp-content/plugins/translatepress-multilingual/includes/class-machine-translator.php:141-172 | A failed test gives the provider's message. DeepL without its table accepts the key. |
| KeyCheck.BaseKeyAlwaysMissing | wp-content/plugins/translatepress-multilingual/includes/class-machine-translator.php:125-185 | The base class's key is reported missing for both known engines. |
| MachineTranslator.OptionStore.constructor | wp-content/plugins/translatepress-multilingual/includes/class-machine-translator.php:63-82 | The stored option starts out with the given records. It is the state that `check_languages_availability` reads at 63 and writes back at 82. |
| MachineTranslator.Translator.constructor | wp-content/plugins/translatepress-multilingual/includes/class-machine-translator.php:21-32 | The translator keeps its settings, ISO-code table and engine. `correct_api_key` starts out null. |
| MachineTranslator.Translator.CheckLanguagesAvailability | wp-content/plugins/translatepress-multilingual/includes/class-machine-translator.php:56-90 | The answer and the new stored option are those of `Availability`, with force being admin recheck or the argument. |
| MachineTranslator.Translator.IsAvailable | wp-content/plugins/translatepress-multilingual/includes/class-machine-translator.php:40-54 | The answer and the new stored option are those of `IsAvailableResult`. |
| MachineTranslator.Translator.GetLastCheckedSupportedLanguages | wp-content/plugins/translatepress-multilingual/includes/class-machine-translator.php:92-98 | It returns the date read before the check, and leaves the option as a forced check of the translation languages would. |
| MachineTranslator.Translator.AutomaticTranslateErrorCheck | wp-content/plugins/translatepress-multilingual/includes/class-machine-translator.php:125-185 | It returns the table's verdict and stores it in `correct_api_key`. |
| MachineTranslator.Translator.IsCorrectApiKey | wp-content/plugins/translatepress-multilingual/includes/class-machine-translator.php:189-200 | The key is correct exactly when the table reports no error for the configured engine and key. |
| MachineTranslator.Translator.Translate | wp-content/plugins/translatepress-multilingual/includes/class-machine-translator.php:313-349 | The result and the request sent are those of `Translation`. |
| MachineTranslator.EncodeStrings | wp-content/plugins/translatepress-multilingual/includes/class-machine-translator.php:324-330 | The encode loop replaces every kept string by its encoded form. |
| MachineTranslator.FileAnswers | wp-content/plugins/translatepress-multilingual/includes/class-machine-translator.php:339-344 | The decode loop files the answers exactly as `Collect` does. |

## Left out

- The `category-ajax-filter` files (a layout template, a plugin bootstrap file and a static admin form) are not part of this model: they hold no translator logic.
- `test_request`, `translate_array`, `get_supported_languages`, `check_formality` and `get_engine_specific_language_codes` belong to the engine adapters, whose code is not part of this model. Their answers are inputs.
- `Fetch`: the answers of `get_supported_languages` and `check_formality` are typed as lists, so neither can be `null` or `false`. A `null` from `check_formality` would make the `isset` test at line 69 fail after every refresh, so the record would be refreshed on every call. `LanguageCache.RefreshSettles` and `LanguageCache.SecondCheckFetchesNothing` rely on this typing.
- The base class's `test_request` has an empty body and returns `null`. Its response code is then `""`, which `NoResponse` stands for.
- HTTP, `wp_remote_retrieve_response_code`, `trp_gt_response_codes` and `deepl_response_codes` are inputs. The response is a status code or none; the message tables are functions.
- `$_GET`, `current_user_can` and the nonce check are one boolean (`adminRecheck`). The `unset($_GET[...])` side effect is not modelled.
- `get_option`/`update_option`:
  - only the `trp_mt_supported_languages` entry of the option is modelled;
  - the other entries are written back unchanged by the source, and are absent here;
  - an engine record without a `languages` field (which PHP would reject in `array_diff`) cannot be represented.
- `date()`, `sanitize_text_field`, `html_entity_decode`, `trp_do_these_shortcodes` and every `apply_filters` hook are supplied values or functions. The filtered crawler pattern is a list of alternatives.
- Gates.IsCrawler: full PCRE is not modelled. The pattern is read as alternatives of literal characters (matched ignoring ASCII case), `.` (any character but newline), `\s` (white space) and escaped literals. That covers every construct in the default pattern, but not other regular-expression syntax a filter could introduce. `.` matches one character where PCRE without `/u` matches one byte; the two differ only on multi-byte characters.
- Gates.IsCrawler: a filter returning the empty string gives PHP the pattern `//i`, which matches every user agent. The model writes that pattern as `[""]` (one empty alternative), which matches too (`Gates.EmptyAlternativeMatchesAll`); the empty list of alternatives `[]` is not a pattern PHP can build, and it matches nothing.
- `__()` message translation is not modelled. The messages are the English source strings.
- Dispatch.Translation: the input is a list of strings, so:
  - the `is_array` check and arbitrary input keys are not modelled;
  - PHP's conversion of numeric string keys to integers in the result array is not modelled;
  - `array_unique` compares strings exactly, as it does by default.
- Codec.RoundTrip: proved for the default token list only. For a token list changed by the filter the round trip is not claimed: it depends on which tokens occur inside markers or other tokens.
- `get_referer` (a lazy component lookup) and `automatic_translation_svg_output` (it only prints) are not modelled.
- The constructor's component-registry lookups are not modelled: the ISO-code table is a constructor argument.
- The loose `==` of PHP between numeric strings (e.g. `"1.0" == "1"`) is not modelled. Codes and ISO codes are compared exactly.
- `Text.IReplace`: case folding is ASCII only, as in `str_ireplace` since PHP 8.2; locale-dependent folding of older versions is not modelled.

## Findings

| source | as written | input that shows it | evidently intended | confidence | as-written member | corrected member |
|---|---|---|---|---|---|---|
| wp-content/plugins/translatepress-multilingual/includes/class-machine-translator.php:92-98 | `get_last_checked_supported_languages` reads the option, starts a forced check when the date is empty, then returns the date from the copy it read before the check. | No record for the active engine, an engine with both introspection methods, and the date `2024-01-01 00:00:00`. The option then holds that date, but the call returns the old, empty value. | Return the date stored by the check, read after it. | medium, not executed | LanguageCache.LastCheckedIsStale | LanguageCache.LastCheckedCorrected |
