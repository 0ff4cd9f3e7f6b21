/** The supported-languages cache behind `check_languages_availability`:
    one record per engine in the stored option, refreshed under a stated
    condition, then asked whether every requested language is supported.
    The class methods that update the stored option are in
    `MachineTranslator`; these functions specify them. */
module LanguageCache {
  import opened Text
  import opened Adapter

  /** `trp_db_stored_data['trp_mt_supported_languages'][engine]`. */
  datatype EngineRecord = EngineRecord(
    languages: seq<string>,            // 'languages'
    formality: Option<seq<string>>,    // 'formality-supported-languages', if set
    lastChecked: Option<string>)       // 'last-checked', if set

  /** The record the refresh creates for an engine that has none. */
  const EmptyRecord := EngineRecord([], None, None)

  function RecordOf(data: map<string, EngineRecord>, engine: string): EngineRecord {
    if engine in data then data[engine] else EmptyRecord
  }

  /** `empty(last-checked)`. */
  predicate NeverChecked(r: EngineRecord) {
    r.lastChecked.None? || Blank(r.lastChecked.value)
  }

  /** The refresh condition. */
  predicate NeedsRefresh(r: EngineRecord, force: bool, hasCheckFormality: bool) {
    NeverChecked(r) || force || (hasCheckFormality && r.formality.None?)
  }

  /** What a refresh obtains from outside: `date("Y-m-d H:i:s")`, and the
      answers of `get_supported_languages` and `check_formality`. */
  datatype Fetch = Fetch(now: string, supported: seq<string>, formality: seq<string>)

  /** The refreshed record: new languages, new formality list when the engine
      can report one (the stored one otherwise), and the new date. */
  function Refreshed(r: EngineRecord, e: Engine, f: Fetch): (r': EngineRecord)
    ensures r'.languages == f.supported && r'.lastChecked == Some(f.now)
    ensures e.hasCheckFormality ==> r'.formality == Some(f.formality)
    ensures !e.hasCheckFormality ==> r'.formality == r.formality
  {
    var r1 := r.(languages := f.supported);
    var r2 := if e.hasCheckFormality then r1.(formality := Some(f.formality)) else r1;
    r2.(lastChecked := Some(f.now))
  }

  /** The stored option after the refresh step. */
  function AfterRefresh(c: Config, data: map<string, EngineRecord>, force: bool, f: Fetch): map<string, EngineRecord> {
    var engine := c.settings.translationEngine;
    var r := RecordOf(data, engine);
    if NeedsRefresh(r, force, c.engine.hasCheckFormality) then data[engine := Refreshed(r, c.engine, f)] else data
  }

  /** `!array_diff(codes, supported)`. */
  predicate AllSupported(codes: seq<string>, supported: seq<string>) {
    forall x :: x in codes ==> x in supported
  }

  /** The engine cannot report its languages: nothing to check. */
  predicate FailsOpen(c: Config) {
    !c.engine.hasSupportedLanguages || !c.engine.hasEngineSpecificLanguageCodes
  }

  /** The base class has neither introspection method: every check answers
      yes and the stored option is left alone. */
  lemma BaseClassAlwaysAvailable(s: Settings, iso: map<string, string>, filter: (bool, seq<string>) -> bool,
                                 data: map<string, EngineRecord>, languages: seq<string>, force: bool, f: Fetch)
    ensures Availability(Config(s, iso, BaseEngine()), filter, data, languages, force, f) == (true, data)
  {
  }

  /** `check_languages_availability($languages, $force)`: the answer, and the
      stored option afterwards. */
  function Availability(c: Config, filter: (bool, seq<string>) -> bool, data: map<string, EngineRecord>,
                        languages: seq<string>, force: bool, f: Fetch): (r: (bool, map<string, EngineRecord>))
    ensures FailsOpen(c) ==> r == (true, data)
    ensures !FailsOpen(c) ==> r.1 == AfterRefresh(c, data, force, f)
  {
    if FailsOpen(c) then (true, data)
    else
      var data' := AfterRefresh(c, data, force, f);
      var codes := c.engine.engineSpecificLanguageCodes(languages);
      (filter(AllSupported(codes, RecordOf(data', c.settings.translationEngine).languages), languages), data')
  }

  /** `is_available($languages)`: line 49 passes no force flag, so only the
      administrator's recheck request forces the check. */
  function IsAvailableResult(c: Config, filter: (bool, seq<string>) -> bool, data: map<string, EngineRecord>,
                             languages: seq<string>, adminRecheck: bool, f: Fetch): (r: (bool, map<string, EngineRecord>))
    ensures r.0 ==> c.settings.machineTranslation == "yes"
    ensures |languages| == 0 || FailsOpen(c) ==> r.1 == data
  {
    if c.settings.machineTranslation != "yes" then (false, data)
    else if |languages| == 0 then (true, data)
    else Availability(c, filter, data, languages, adminRecheck, f)
  }

  // ---- properties ----

  /** Without both introspection methods the answer is yes and nothing is
      stored. */
  lemma FailOpen(c: Config, filter: (bool, seq<string>) -> bool, data: map<string, EngineRecord>, languages: seq<string>, force: bool, f: Fetch)
    requires FailsOpen(c)
    ensures Availability(c, filter, data, languages, force, f) == (true, data)
  {
  }

  /** Otherwise the answer is the filtered inclusion test against the active
      engine's record as it stands after the refresh step. */
  lemma AvailabilityIsInclusion(c: Config, filter: (bool, seq<string>) -> bool, data: map<string, EngineRecord>, languages: seq<string>, force: bool, f: Fetch)
    requires !FailsOpen(c)
    ensures var (ok, data') := Availability(c, filter, data, languages, force, f);
      var supported := RecordOf(data', c.settings.translationEngine).languages;
      ok == filter(forall x :: x in c.engine.engineSpecificLanguageCodes(languages) ==> x in supported, languages)
  {
  }

  /** The record is rewritten exactly when the refresh condition holds, and
      then it is the refreshed record. */
  lemma RefreshExactlyWhenNeeded(c: Config, data: map<string, EngineRecord>, force: bool, f: Fetch)
    ensures var engine := c.settings.translationEngine;
      var r := RecordOf(data, engine);
      var data' := AfterRefresh(c, data, force, f);
      && (NeedsRefresh(r, force, c.engine.hasCheckFormality) ==> engine in data' && data'[engine] == Refreshed(r, c.engine, f))
      && (!NeedsRefresh(r, force, c.engine.hasCheckFormality) ==> data' == data)
  {
  }

  /** An engine without a record gets one: `EmptyRecord` is the
      `array('languages' => array())` the refresh starts from, and its empty
      date always triggers the refresh. */
  lemma MissingRecordCreated(c: Config, data: map<string, EngineRecord>, force: bool, f: Fetch)
    requires c.settings.translationEngine !in data
    ensures var data' := AfterRefresh(c, data, force, f);
      && c.settings.translationEngine in data'
      && data'[c.settings.translationEngine] == Refreshed(EmptyRecord, c.engine, f)
      && data'[c.settings.translationEngine].formality == (if c.engine.hasCheckFormality then Some(f.formality) else None)
  {
  }

  /** Other engines' records are left as they were. */
  lemma OtherEnginesUntouched(c: Config, data: map<string, EngineRecord>, force: bool, f: Fetch, other: string)
    requires other != c.settings.translationEngine
    ensures var data' := AfterRefresh(c, data, force, f);
      (other in data' <==> other in data) && (other in data ==> data'[other] == data[other])
  {
  }

  /** A refresh with a real date needs no second refresh unless forced. */
  lemma RefreshSettles(c: Config, r: EngineRecord, f: Fetch)
    requires !Blank(f.now)
    ensures !NeedsRefresh(Refreshed(r, c.engine, f), false, c.engine.hasCheckFormality)
  {
  }

  /** So an unforced second check stores nothing new, whatever it would fetch. */
  lemma {:induction false} SecondCheckFetchesNothing(c: Config, data: map<string, EngineRecord>, force: bool, f1: Fetch, f2: Fetch)
    requires !Blank(f1.now)
    ensures var data1 := AfterRefresh(c, data, force, f1);
      AfterRefresh(c, data1, false, f2) == data1
  {
    var engine := c.settings.translationEngine;
    var r := RecordOf(data, engine);
    if NeedsRefresh(r, force, c.engine.hasCheckFormality) {
      RefreshSettles(c, r, f1);
    }
  }

  /** `is_available` says no unless machine translation is on, and yes for an
      empty language list; neither case touches the stored option. */
  lemma IsAvailableShortcuts(c: Config, filter: (bool, seq<string>) -> bool, data: map<string, EngineRecord>, languages: seq<string>, adminRecheck: bool, f: Fetch)
    ensures c.settings.machineTranslation != "yes" ==> IsAvailableResult(c, filter, data, languages, adminRecheck, f) == (false, data)
    ensures c.settings.machineTranslation == "yes" && |languages| == 0 ==> IsAvailableResult(c, filter, data, languages, adminRecheck, f) == (true, data)
  {
  }

  // ---- get_last_checked_supported_languages ----

  /** The stored option after `get_last_checked_supported_languages`: a
      forced check of the translation languages when the active engine was
      never checked. */
  function LastCheckedStore(c: Config, filter: (bool, seq<string>) -> bool, data: map<string, EngineRecord>, f: Fetch): map<string, EngineRecord> {
    if NeverChecked(RecordOf(data, c.settings.translationEngine))
    then Availability(c, filter, data, c.settings.translationLanguages, true, f).1
    else data
  }

  /** What it returns as written: the date from the option as read before
      that check. */
  function LastCheckedAsWritten(c: Config, data: map<string, EngineRecord>): (d: Option<string>)
    ensures !NeverChecked(RecordOf(data, c.settings.translationEngine)) ==> d.Some? && !Blank(d.value)
  {
    RecordOf(data, c.settings.translationEngine).lastChecked
  }

  /** When the date is already there it is returned and nothing is fetched. */
  lemma LastCheckedWhenPresent(c: Config, filter: (bool, seq<string>) -> bool, data: map<string, EngineRecord>, f: Fetch)
    requires !NeverChecked(RecordOf(data, c.settings.translationEngine))
    ensures LastCheckedStore(c, filter, data, f) == data
    ensures LastCheckedAsWritten(c, data) == RecordOf(LastCheckedStore(c, filter, data, f), c.settings.translationEngine).lastChecked
  {
  }

  /** As written, the refresh path returns a stale, empty date although the
      option now holds the new one. */
  lemma LastCheckedIsStale(c: Config, filter: (bool, seq<string>) -> bool, data: map<string, EngineRecord>, f: Fetch)
    requires !FailsOpen(c) && !Blank(f.now)
    requires NeverChecked(RecordOf(data, c.settings.translationEngine))
    ensures var stored := RecordOf(LastCheckedStore(c, filter, data, f), c.settings.translationEngine).lastChecked;
      stored == Some(f.now) && LastCheckedAsWritten(c, data) != stored
  {
  }

  /** The evidently intended answer: the date in the option after the check. */
  function LastCheckedCorrected(c: Config, filter: (bool, seq<string>) -> bool, data: map<string, EngineRecord>, f: Fetch): (d: Option<string>)
    ensures !FailsOpen(c) && !Blank(f.now) ==> d.Some? && !Blank(d.value)
    ensures !NeverChecked(RecordOf(data, c.settings.translationEngine)) ==> d == LastCheckedAsWritten(c, data)
  {
    RecordOf(LastCheckedStore(c, filter, data, f), c.settings.translationEngine).lastChecked
  }
}
