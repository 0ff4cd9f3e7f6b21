/** `TRP_Machine_Translator` itself: the methods that change state (the stored
    option, the `correct_api_key` field) or loop, each proved against the
    function that specifies it. */
module MachineTranslator {
  import opened Text
  import opened Codec
  import opened Adapter
  import opened Dispatch
  import opened LanguageCache
  import opened KeyCheck

  /** The `trp_mt_supported_languages` entry of the stored option
      `trp_db_stored_data`, which `get_option` reads and `update_option`
      writes back. */
  class OptionStore {
    var supportedLanguages: map<string, EngineRecord>

    constructor(initial: map<string, EngineRecord>)
      ensures supportedLanguages == initial
    {
      supportedLanguages := initial;
    }
  }

  class Translator {
    const config: Config
    var correctApiKey: Option<Verdict>

    /** The settings, the ISO codes of the translation languages, and the
        engine adapter this translator is part of. */
    constructor(settings: Settings, isoCodes: map<string, string>, engine: Engine)
      ensures config == Config(settings, isoCodes, engine) && correctApiKey == None
    {
      config := Config(settings, isoCodes, engine);
      correctApiKey := None;
    }

    /** `check_languages_availability`. `adminRecheck` is the administrator's
        nonce-checked request to recheck. */
    method CheckLanguagesAvailability(store: OptionStore, filter: (bool, seq<string>) -> bool, languages: seq<string>,
                                      forceRecheck: bool, adminRecheck: bool, f: Fetch) returns (available: bool)
      modifies store
      ensures (available, store.supportedLanguages)
           == Availability(config, filter, old(store.supportedLanguages), languages, adminRecheck || forceRecheck, f)
    {
      if !config.engine.hasSupportedLanguages || !config.engine.hasEngineSpecificLanguageCodes {
        assert FailsOpen(config);
        return true;
      }
      var force := if adminRecheck then true else forceRecheck;
      var data := store.supportedLanguages;
      var engine := config.settings.translationEngine;
      if NeedsRefresh(RecordOf(data, engine), force, config.engine.hasCheckFormality) {
        if engine !in data {
          data := data[engine := EmptyRecord];
        }
        var record := data[engine].(languages := f.supported);
        if config.engine.hasCheckFormality {
          record := record.(formality := Some(f.formality));
        }
        record := record.(lastChecked := Some(f.now));
        data := data[engine := record];
        store.supportedLanguages := data;
      }
      assert data == AfterRefresh(config, old(store.supportedLanguages), force, f);
      var codes := config.engine.engineSpecificLanguageCodes(languages);
      var allAvailable := AllSupported(codes, RecordOf(data, engine).languages);
      available := filter(allAvailable, languages);
    }

    /** `is_available($languages)`. */
    method IsAvailable(store: OptionStore, filter: (bool, seq<string>) -> bool, languages: seq<string>,
                       adminRecheck: bool, f: Fetch) returns (available: bool)
      modifies store
      ensures (available, store.supportedLanguages)
           == IsAvailableResult(config, filter, old(store.supportedLanguages), languages, adminRecheck, f)
    {
      if config.settings.machineTranslation == "yes" {
        if |languages| == 0 {
          return true;
        }
        available := CheckLanguagesAvailability(store, filter, languages, false, adminRecheck, f);
      } else {
        return false;
      }
    }

    /** `get_last_checked_supported_languages`: returns the date read before
        the forced check it may start. */
    method GetLastCheckedSupportedLanguages(store: OptionStore, filter: (bool, seq<string>) -> bool, adminRecheck: bool, f: Fetch)
      returns (lastChecked: Option<string>)
      modifies store
      ensures lastChecked == LastCheckedAsWritten(config, old(store.supportedLanguages))
      ensures store.supportedLanguages == LastCheckedStore(config, filter, old(store.supportedLanguages), f)
    {
      var data := store.supportedLanguages;
      var engine := config.settings.translationEngine;
      if NeverChecked(RecordOf(data, engine)) {
        var _ := CheckLanguagesAvailability(store, filter, config.settings.translationLanguages, true, adminRecheck, f);
      }
      lastChecked := RecordOf(data, engine).lastChecked;
    }

    /** `automatic_translate_error_check`: the verdict is kept in
        `correct_api_key` as well as returned. */
    method AutomaticTranslateErrorCheck(engine: string, key: ApiKey, response: ResponseCode, tables: MessageTables)
      returns (verdict: Verdict)
      modifies this
      ensures verdict == ErrorCheck(engine, key, response, tables)
      ensures correctApiKey == Some(verdict)
    {
      var isError := false;
      var message := "";
      if engine == GoogleEngine {
        if KeyBlank(key) {
          isError := true;
          message := GoogleKeyPrompt;
        } else if response != Status(200) {
          isError := true;
          message := tables.google(response);
        }
      } else if engine == DeepLEngine {
        if KeyBlank(key) {
          isError := true;
          message := DeepLKeyPrompt;
        } else if response != Status(200) && tables.deepl.Some? {
          isError := true;
          message := tables.deepl.value(response);
        }
      }
      correctApiKey := Some(Verdict(message, isError));
      verdict := correctApiKey.value;
    }

    /** `is_correct_api_key`: the check above on this translator's own engine
        and key. */
    method IsCorrectApiKey(response: ResponseCode, tables: MessageTables) returns (correct: bool)
      modifies this
      ensures correct == !ErrorCheck(config.settings.translationEngine, config.engine.apiKey, response, tables).error
      ensures correctApiKey == Some(ErrorCheck(config.settings.translationEngine, config.engine.apiKey, response, tables))
    {
      var verification := AutomaticTranslateErrorCheck(config.settings.translationEngine, config.engine.apiKey, response, tables);
      correct := !verification.error;
    }

    /** `translate($strings, $target, $source)`: one loop encodes the
        de-duplicated strings, a second files the engine's answers. */
    method Translate(hooks: Hooks, strings: seq<string>, target: string, source: Option<string>)
      returns (result: map<string, string>, sent: Option<Request>)
      ensures Outcome(result, sent) == Translation(config, hooks, strings, target, source)
    {
      if !(|strings| > 0 && config.engine.hasTranslateArray && !hooks.disabledDueToError) {
        return map[], None;
      }
      var placeholders := GetPlaceholders(|hooks.excluded|);
      var uniq := Unique(strings);
      var encoded := EncodeStrings(hooks, uniq, |strings|, placeholders);
      var request := Request(encoded, target, SourceArgument(config, hooks, source));
      assert request == EngineRequest(config, hooks, strings, target, source);
      var answers := config.engine.translateArray(request);
      result := FileAnswers(uniq, answers, hooks.excluded, placeholders);
      sent := Some(request);
    }
  }

  /** The first loop of `translate`: every kept string, keys below `n`, is
      replaced by its encoded form. */
  method EncodeStrings(hooks: Hooks, uniq: map<nat, string>, n: nat, placeholders: seq<string>)
    returns (encoded: map<nat, string>)
    requires placeholders == Placeholders(|hooks.excluded|)
    requires forall k :: k in uniq ==> k < n
    ensures encoded == map k | k in uniq :: EncodeForEngine(hooks, uniq[k])
  {
    encoded := map[];
    var i := 0;
    while i < n
      invariant 0 <= i <= n
      invariant encoded.Keys == set k | k in uniq && k < i
      invariant forall k :: k in encoded ==> encoded[k] == EncodeForEngine(hooks, uniq[k])
    {
      if i in uniq {
        var s := ReplaceEach(hooks.entityDecode(uniq[i]), hooks.excluded, placeholders);
        encoded := encoded[i := hooks.shortcodes(s)];
      }
      i := i + 1;
    }
    assert encoded.Keys == uniq.Keys;
  }

  /** The second loop of `translate`: each answer, decoded, filed under the
      original string of its key. */
  method FileAnswers(uniq: map<nat, string>, answers: seq<(nat, string)>, excluded: seq<string>, placeholders: seq<string>)
    returns (result: map<string, string>)
    requires placeholders == Placeholders(|excluded|)
    ensures result == Collect(uniq, answers, excluded)
  {
    result := map[];
    var j := 0;
    while j < |answers|
      invariant 0 <= j <= |answers|
      invariant result == Collect(uniq, answers[..j], excluded)
    {
      var key := answers[j].0;
      var original := if key in uniq then uniq[key] else "";
      result := result[original := IReplaceEach(answers[j].1, placeholders, excluded)];
      assert answers[..j + 1][..j] == answers[..j];
      j := j + 1;
    }
    assert answers[..j] == answers;
  }
}
