/** What `translate` does around the engine call: de-duplicate the strings,
    encode each for the engine, send them, and file each answer, decoded,
    under the original string it came from. The method with the two loops
    is `MachineTranslator.Translator.Translate`; this module holds the
    functions that specify it and the properties proved about them. */
module Dispatch {
  import opened Codec
  import opened Adapter

  /** The hooks `translate` consults, with what they return. */
  datatype Hooks = Hooks(
    disabledDueToError: bool,        // trp_disable_automatic_translations_due_to_error
    excluded: seq<string>,           // trp_exclude_words_from_automatic_translation
    entityDecode: string -> string,  // html_entity_decode
    shortcodes: string -> string,    // trp_do_these_shortcodes with the filtered tag list
    deeplV1: bool)                   // TRP_DL_PLUGIN_VERSION is defined and is '1.0.0'

  /** The result of `translate`, and the request it handed to the engine. */
  datatype Outcome = Outcome(result: map<string, string>, sent: Option<Request>)

  // ---- array_unique ----

  /** No earlier position holds the same string. */
  predicate FirstOccurrence(strings: seq<string>, k: int) {
    0 <= k < |strings| && forall j :: 0 <= j < k ==> strings[j] != strings[k]
  }

  /** `array_unique`: the first occurrence of each string, under its own key. */
  function Unique(strings: seq<string>): (u: map<nat, string>)
    ensures forall k :: k in u ==> k < |strings| && u[k] == strings[k]
    ensures |strings| > 0 ==> 0 in u
  {
    map k: nat | k < |strings| && FirstOccurrence(strings, k) :: strings[k]
  }

  /** Every input string is kept, under a key no later than any of its
      occurrences. */
  lemma {:induction false} UniqueCovers(strings: seq<string>, j: nat)
    requires j < |strings|
    ensures exists k :: k in Unique(strings) && k <= j && Unique(strings)[k] == strings[j]
    decreases j
  {
    if FirstOccurrence(strings, j) {
      assert j in Unique(strings);
    } else {
      var j' :| 0 <= j' < j && strings[j'] == strings[j];
      UniqueCovers(strings, j');
    }
  }

  /** No string is kept twice. */
  lemma UniqueInjective(strings: seq<string>, k1: nat, k2: nat)
    requires k1 in Unique(strings) && k2 in Unique(strings)
    requires Unique(strings)[k1] == Unique(strings)[k2]
    ensures k1 == k2
  {
  }

  // ---- the request ----

  /** `$original_strings[$key]`: an engine key the originals do not have reads
      as null, which PHP files under the key "". */
  function Original(uniq: map<nat, string>, key: nat): string {
    if key in uniq then uniq[key] else ""
  }

  /** One string as the engine receives it: entities decoded, excluded
      tokens replaced by markers, then the shortcode hook. */
  function EncodeForEngine(hooks: Hooks, s: string): string {
    hooks.shortcodes(Encode(hooks.entityDecode(s), hooks.excluded))
  }

  /** Whether `translate` reaches the engine at all. */
  predicate Reaches(c: Config, hooks: Hooks, strings: seq<string>) {
    |strings| > 0 && c.engine.hasTranslateArray && !hooks.disabledDueToError
  }

  /** Only the DeepL 1.0.0 add-on is called without a source language. */
  function SourceArgument(c: Config, hooks: Hooks, source: Option<string>): SourceArg {
    if c.settings.translationEngine == "deepl" && hooks.deeplV1 then Omitted else Passed(source)
  }

  /** The call of `translate_array`. */
  function EngineRequest(c: Config, hooks: Hooks, strings: seq<string>, target: string, source: Option<string>): Request {
    var uniq := Unique(strings);
    Request(map k | k in uniq :: EncodeForEngine(hooks, uniq[k]), target, SourceArgument(c, hooks, source))
  }

  // ---- filing the answers ----

  /** The answers in order, each decoded and filed under its original string;
      a later answer for the same original wins. */
  function Collect(uniq: map<nat, string>, answers: seq<(nat, string)>, excluded: seq<string>): map<string, string>
    decreases |answers|
  {
    if |answers| == 0 then map[]
    else
      var last := answers[|answers| - 1];
      Collect(uniq, answers[..|answers| - 1], excluded)[Original(uniq, last.0) := Decode(last.1, excluded)]
  }

  /** `translate($strings, $target, $source)`. */
  function Translation(c: Config, hooks: Hooks, strings: seq<string>, target: string, source: Option<string>): (out: Outcome)
    ensures out.sent.Some? <==> Reaches(c, hooks, strings)
    ensures out.sent.None? ==> out.result == map[]
  {
    if !Reaches(c, hooks, strings) then Outcome(map[], None)
    else
      var request := EngineRequest(c, hooks, strings, target, source);
      Outcome(Collect(Unique(strings), c.engine.translateArray(request), hooks.excluded), Some(request))
  }

  /** The keys of the filed answers are exactly the originals of the keys the
      engine answered for. */
  lemma {:induction false} CollectKeys(uniq: map<nat, string>, answers: seq<(nat, string)>, excluded: seq<string>, s: string)
    ensures s in Collect(uniq, answers, excluded) <==> exists i :: 0 <= i < |answers| && Original(uniq, answers[i].0) == s
    decreases |answers|
  {
    if |answers| > 0 {
      var n := |answers| - 1;
      var prefix := answers[..n];
      CollectKeys(uniq, prefix, excluded, s);
      if exists i :: 0 <= i < |prefix| && Original(uniq, prefix[i].0) == s {
        var i :| 0 <= i < |prefix| && Original(uniq, prefix[i].0) == s;
        assert answers[i] == prefix[i];
      }
      if exists i :: 0 <= i < |answers| && Original(uniq, answers[i].0) == s {
        var i :| 0 <= i < |answers| && Original(uniq, answers[i].0) == s;
        if i < n {
          assert prefix[i] == answers[i];
        }
      }
    }
  }

  /** An original the engine answered for, whose answers all decode to `w`,
      is filed with `w`. */
  lemma {:induction false} CollectAt(uniq: map<nat, string>, answers: seq<(nat, string)>, excluded: seq<string>, s: string, w: string)
    requires exists i :: 0 <= i < |answers| && Original(uniq, answers[i].0) == s
    requires forall i :: 0 <= i < |answers| && Original(uniq, answers[i].0) == s ==> Decode(answers[i].1, excluded) == w
    ensures s in Collect(uniq, answers, excluded) && Collect(uniq, answers, excluded)[s] == w
    decreases |answers|
  {
    var n := |answers| - 1;
    if Original(uniq, answers[n].0) != s {
      var prefix := answers[..n];
      var i :| 0 <= i < |answers| && Original(uniq, answers[i].0) == s;
      assert i < n && prefix[i] == answers[i];
      forall i | 0 <= i < |prefix| && Original(uniq, prefix[i].0) == s
        ensures Decode(prefix[i].1, excluded) == w
      {
        assert prefix[i] == answers[i];
      }
      CollectAt(uniq, prefix, excluded, s, w);
    }
  }

  // ---- properties of translate ----

  /** An empty input, an engine without `translate_array` or the disable flag:
      nothing is sent and nothing comes back. */
  lemma NothingSentUnlessReached(c: Config, hooks: Hooks, strings: seq<string>, target: string, source: Option<string>)
    requires !Reaches(c, hooks, strings)
    ensures Translation(c, hooks, strings, target, source) == Outcome(map[], None)
  {
  }

  /** The base class has no `translate_array`. */
  lemma BaseClassTranslatesNothing(s: Settings, iso: map<string, string>, hooks: Hooks, strings: seq<string>, target: string, source: Option<string>)
    ensures Translation(Config(s, iso, BaseEngine()), hooks, strings, target, source).result == map[]
  {
  }

  /** What is sent: one encoded string per distinct input string, under the
      key of its first occurrence, and the source language unless the engine
      is the DeepL 1.0.0 add-on. */
  lemma RequestShape(c: Config, hooks: Hooks, strings: seq<string>, target: string, source: Option<string>)
    requires Reaches(c, hooks, strings)
    ensures var out := Translation(c, hooks, strings, target, source);
      && out.sent.Some?
      && out.sent.value.strings.Keys == Unique(strings).Keys
      && (forall k :: k in out.sent.value.strings ==> out.sent.value.strings[k] == EncodeForEngine(hooks, strings[k]))
      && out.sent.value.target == target
      && (out.sent.value.source == Omitted <==> c.settings.translationEngine == "deepl" && hooks.deeplV1)
      && (out.sent.value.source != Omitted ==> out.sent.value.source == Passed(source))
  {
  }

  /** With the default tokens and a shortcode hook that leaves text alone,
      the engine never sees '%', '$' or '#'. */
  lemma EngineNeverSeesExcludedCharacters(c: Config, hooks: Hooks, strings: seq<string>, target: string, source: Option<string>)
    requires Reaches(c, hooks, strings)
    requires hooks.excluded == DefaultExcluded
    requires forall t :: hooks.shortcodes(t) == t
    ensures var sent := Translation(c, hooks, strings, target, source).sent.value.strings;
      forall k :: k in sent ==> '%' !in sent[k] && '$' !in sent[k] && '#' !in sent[k]
  {
    var sent := Translation(c, hooks, strings, target, source).sent.value.strings;
    forall k | k in sent ensures '%' !in sent[k] && '$' !in sent[k] && '#' !in sent[k] {
      EncodedHasNoExcludedChar(hooks.entityDecode(strings[k]));
    }
  }

  /** Every key of the result is one of the input strings, or the null key
      "" for an engine key the originals do not have; and an original is a
      key exactly when the engine answered for its first occurrence or, for
      the original "", answered a key the originals lack. */
  lemma ResultKeys(c: Config, hooks: Hooks, strings: seq<string>, target: string, source: Option<string>)
    requires Reaches(c, hooks, strings)
    ensures var out := Translation(c, hooks, strings, target, source);
      var answers := c.engine.translateArray(out.sent.value);
      && (forall s :: s in out.result ==> s in strings || s == "")
      && (forall s :: s in out.result <==> exists i :: 0 <= i < |answers| && Original(Unique(strings), answers[i].0) == s)
  {
    var out := Translation(c, hooks, strings, target, source);
    var answers := c.engine.translateArray(out.sent.value);
    var uniq := Unique(strings);
    forall s ensures s in out.result <==> exists i :: 0 <= i < |answers| && Original(uniq, answers[i].0) == s {
      CollectKeys(uniq, answers, hooks.excluded, s);
    }
    forall s | s in out.result ensures s in strings || s == "" {
      CollectKeys(uniq, answers, hooks.excluded, s);
      var i :| 0 <= i < |answers| && Original(uniq, answers[i].0) == s;
      if answers[i].0 in uniq {
        assert s == strings[answers[i].0];
      }
    }
  }

  /** The engine answered every key it was sent, each with the string it was
      sent unchanged. */
  predicate Echoes(request: Request, answers: seq<(nat, string)>) {
    && (forall i :: 0 <= i < |answers| ==> answers[i].0 in request.strings && answers[i].1 == request.strings[answers[i].0])
    && (forall k :: k in request.strings ==> exists i :: 0 <= i < |answers| && answers[i].0 == k)
  }

  /** If the engine hands every string back untouched, with the default
      tokens and a shortcode hook that leaves text alone, each input string
      comes back entity-decoded, provided the decoded text holds nothing that
      looks like a marker. */
  lemma EchoRoundTrip(c: Config, hooks: Hooks, strings: seq<string>, target: string, source: Option<string>, j: nat)
    requires Reaches(c, hooks, strings)
    requires hooks.excluded == DefaultExcluded
    requires forall t :: hooks.shortcodes(t) == t
    requires Echoes(EngineRequest(c, hooks, strings, target, source), c.engine.translateArray(EngineRequest(c, hooks, strings, target, source)))
    requires j < |strings| && MarkerFree(hooks.entityDecode(strings[j]))
    ensures var result := Translation(c, hooks, strings, target, source).result;
      strings[j] in result && result[strings[j]] == hooks.entityDecode(strings[j])
  {
    var uniq := Unique(strings);
    var request := EngineRequest(c, hooks, strings, target, source);
    var answers := c.engine.translateArray(request);
    var s, w := strings[j], hooks.entityDecode(strings[j]);
    UniqueCovers(strings, j);
    var k :| k in uniq && k <= j && uniq[k] == s;
    assert k in request.strings;
    var i :| 0 <= i < |answers| && answers[i].0 == k;
    assert Original(uniq, answers[i].0) == s;
    forall i | 0 <= i < |answers| && Original(uniq, answers[i].0) == s
      ensures Decode(answers[i].1, hooks.excluded) == w
    {
      var key := answers[i].0;
      assert key in uniq;
      UniqueInjective(strings, key, k);
      RoundTrip(w);
    }
    CollectAt(uniq, answers, hooks.excluded, s, w);
  }
}
