/** The request gates: the crawler test and the two forms of request
    verification, each a conjunction of independent checks. */
module Gates {
  import opened Text
  import opened Adapter

  // ---- crawler detection ----

  /** One position of a crawler alternative: a literal character, `.` (any
      character but a newline) or `\s` (a white-space character). */
  datatype Atom = Lit(c: char) | AnyChar | Space

  /** Reads one alternative of the crawler pattern: `\s` is white space,
      `\` before any other character makes it literal, `.` is any character. */
  function Atoms(alt: string): seq<Atom>
    decreases |alt|
  {
    if |alt| == 0 then []
    else if alt[0] == '\\' && |alt| >= 2 then
      (if alt[1] == 's' then [Space] else [Lit(alt[1])]) + Atoms(alt[2..])
    else if alt[0] == '.' then [AnyChar] + Atoms(alt[1..])
    else [Lit(alt[0])] + Atoms(alt[1..])
  }

  /** Matching one character under the pattern's `i` flag. */
  predicate AtomMatches(a: Atom, c: char) {
    match a
    case Lit(x) => Lower(x) == Lower(c)
    case AnyChar => c != '\n'
    case Space => c == ' ' || '\t' <= c <= '\r'
  }

  predicate AtomsMatchAt(atoms: seq<Atom>, s: string, i: int) {
    0 <= i && i + |atoms| <= |s| && forall k :: 0 <= k < |atoms| ==> AtomMatches(atoms[k], s[i + k])
  }

  /** `preg_match('/' . join('|', alternatives) . '/i', s)`. */
  predicate PatternMatches(alternatives: seq<string>, s: string) {
    exists a, i :: 0 <= a < |alternatives| && 0 <= i <= |s| && AtomsMatchAt(Atoms(alternatives[a]), s, i)
  }

  /** The default alternatives of `trp_machine_translator_crawlers`, in order. */
  const DefaultCrawlers: seq<string> := [
    "rambler", "abacho", "acoi", "accona", "aspseek", "altavista", "estyle", "scrubby",
    "lycos", "geona", "ia_archiver", "alexa", "sogou", "skype", "facebook", "twitter",
    "pinterest", "linkedin", "naver", "bing", "google", "yahoo", "duckduckgo", "yandex",
    "baidu", "teoma", "xing", "java\\/1.7.0_45", "bot", "crawl", "slurp", "spider",
    "mediapartners", "\\sask\\s", "\\saol\\s"]

  /** What the crawler test sees of the incoming page request. */
  datatype Incoming = Incoming(
    userAgent: Option<string>,      // the user-agent header, if set
    sanitize: string -> string,     // sanitize_text_field
    crawlers: seq<string>,          // the alternatives after the crawlers filter
    quotaExceeded: bool)            // what the quota logger reports

  /** `is_crawler`: no user agent means no crawler. */
  predicate IsCrawler(v: Incoming)
    ensures IsCrawler(v) ==> v.userAgent.Some? && |v.crawlers| > 0
  {
    v.userAgent.Some? && PatternMatches(v.crawlers, v.sanitize(v.userAgent.value))
  }

  /** A request without a user-agent header is never taken for a crawler. */
  lemma NoUserAgentIsNoCrawler(v: Incoming)
    requires v.userAgent.None?
    ensures !IsCrawler(v)
  {
  }

  /** A non-empty alternative needs at least one character to match. */
  lemma AtomsNonEmpty(alt: string)
    requires |alt| > 0
    ensures |Atoms(alt)| > 0
  {
  }

  /** A user-agent header that is set but empty (or sanitised to nothing)
      is not taken for a crawler by the default pattern, none of whose
      alternatives matches the empty string. */
  lemma EmptyUserAgentIsNoCrawler(v: Incoming)
    requires v.userAgent.Some? && v.sanitize(v.userAgent.value) == ""
    requires v.crawlers == DefaultCrawlers
    ensures !IsCrawler(v)
  {
    forall a | 0 <= a < |DefaultCrawlers| ensures |Atoms(DefaultCrawlers[a])| > 0 {
      AtomsNonEmpty(DefaultCrawlers[a]);
    }
  }

  /** An empty alternative (the filter returning `''` gives the pattern
      `//i`) matches every user agent. */
  lemma EmptyAlternativeMatchesAll(v: Incoming, a: nat)
    requires v.userAgent.Some? && a < |v.crawlers| && v.crawlers[a] == ""
    ensures IsCrawler(v)
  {
    assert AtomsMatchAt(Atoms(v.crawlers[a]), v.sanitize(v.userAgent.value), 0);
  }

  /** A word with no `\` and no `.` is read as itself, letter by letter. */
  predicate PlainWord(w: string) {
    forall k :: 0 <= k < |w| ==> w[k] != '\\' && w[k] != '.'
  }

  lemma {:induction false} PlainWordAtoms(w: string)
    requires PlainWord(w)
    ensures |Atoms(w)| == |w|
    ensures forall k :: 0 <= k < |w| ==> Atoms(w)[k] == Lit(w[k])
    decreases |w|
  {
    if |w| > 0 {
      assert PlainWord(w[1..]) by {
        forall k | 0 <= k < |w[1..]| ensures w[1..][k] != '\\' && w[1..][k] != '.' {
          assert w[1..][k] == w[k + 1];
        }
      }
      PlainWordAtoms(w[1..]);
    }
  }

  /** A user agent that contains, in any case, one of the plain-word
      alternatives is a crawler. */
  lemma PlainAlternativeFound(v: Incoming, a: nat, i: nat)
    requires v.userAgent.Some? && a < |v.crawlers| && PlainWord(v.crawlers[a])
    requires var s, w := v.sanitize(v.userAgent.value), v.crawlers[a];
      i + |w| <= |s| && forall k :: 0 <= k < |w| ==> Lower(s[i + k]) == Lower(w[k])
    ensures IsCrawler(v)
  {
    var s, w := v.sanitize(v.userAgent.value), v.crawlers[a];
    PlainWordAtoms(w);
    assert AtomsMatchAt(Atoms(w), s, i);
  }

  /** With the default list, any user agent containing "bot" in any case
      (Googlebot, bingbot, ...) is a crawler. */
  lemma BotIsCrawler(v: Incoming, i: nat)
    requires v.userAgent.Some? && v.crawlers == DefaultCrawlers
    requires var s := v.sanitize(v.userAgent.value);
      i + 3 <= |s| && Lower(s[i]) == 'b' && Lower(s[i + 1]) == 'o' && Lower(s[i + 2]) == 't'
    ensures IsCrawler(v)
  {
    var s := v.sanitize(v.userAgent.value);
    assert v.crawlers[28] == "bot";
    assert s[i + 0] == s[i];
    PlainAlternativeFound(v, 28, i);
  }

  lemma LowerIdempotent(c: char)
    ensures Lower(Lower(c)) == Lower(c)
    ensures c == ' ' || '\t' <= c <= '\r' <==> Lower(c) == ' ' || '\t' <= Lower(c) <= '\r'
    ensures c != '\n' <==> Lower(c) != '\n'
  {
  }

  /** One alternative matches at a position exactly when it matches there in
      the lower-cased text. */
  lemma AtomsMatchLower(atoms: seq<Atom>, s: string, i: int)
    ensures AtomsMatchAt(atoms, s, i) == AtomsMatchAt(atoms, LowerStr(s), i)
  {
    var t := LowerStr(s);
    if 0 <= i && i + |atoms| <= |s| {
      forall k | 0 <= k < |atoms| ensures AtomMatches(atoms[k], s[i + k]) == AtomMatches(atoms[k], t[i + k]) {
        LowerIdempotent(s[i + k]);
      }
    }
  }

  /** The crawler pattern ignores case: matching the user agent or its
      lower-cased form gives the same answer. */
  lemma PatternIgnoresCase(alternatives: seq<string>, s: string)
    ensures PatternMatches(alternatives, s) == PatternMatches(alternatives, LowerStr(s))
  {
    var t := LowerStr(s);
    if PatternMatches(alternatives, s) {
      var a, i :| 0 <= a < |alternatives| && 0 <= i <= |s| && AtomsMatchAt(Atoms(alternatives[a]), s, i);
      AtomsMatchLower(Atoms(alternatives[a]), s, i);
      assert 0 <= i <= |t| && AtomsMatchAt(Atoms(alternatives[a]), t, i);
    }
    if PatternMatches(alternatives, t) {
      var a, i :| 0 <= a < |alternatives| && 0 <= i <= |t| && AtomsMatchAt(Atoms(alternatives[a]), t, i);
      AtomsMatchLower(Atoms(alternatives[a]), s, i);
      assert 0 <= i <= |s| && AtomsMatchAt(Atoms(alternatives[a]), s, i);
    }
  }

  // ---- request verification ----

  /** The entry of `machine_translation_codes` for an application code; a
      missing entry reads as "". */
  function IsoCode(c: Config, code: string): string {
    if code in c.isoCodes then c.isoCodes[code] else ""
  }

  /** Crawlers are blocked and this request comes from one. */
  predicate CrawlerBlocked(c: Config, v: Incoming) {
    c.settings.blockCrawlers == "yes" && IsCrawler(v)
  }

  /** `verify_request_parameters($target, $source)`. */
  function VerifyRequestParameters(c: Config, v: Incoming, target: string, source: string): (ok: bool)
    ensures ok ==> IsoCode(c, target) != IsoCode(c, source)
    ensures ok ==> !KeyBlank(c.engine.apiKey) && !v.quotaExceeded && !CrawlerBlocked(c, v)
  {
    if KeyBlank(c.engine.apiKey) || Blank(target) || Blank(source)
       || Blank(IsoCode(c, target)) || Blank(IsoCode(c, source))
       || IsoCode(c, target) == IsoCode(c, source)
    then false
    else if !c.engine.extraRequestValidations(target) then false
    else if CrawlerBlocked(c, v) then false
    else if v.quotaExceeded then false
    else true
  }

  /** The conditions of the two-language check, all together. */
  predicate PairAcceptable(c: Config, v: Incoming, target: string, source: string) {
    && !KeyBlank(c.engine.apiKey)
    && !Blank(target) && !Blank(source)
    && !Blank(IsoCode(c, target)) && !Blank(IsoCode(c, source))
    && IsoCode(c, target) != IsoCode(c, source)
    && c.engine.extraRequestValidations(target)
    && !(c.settings.blockCrawlers == "yes" && IsCrawler(v))
    && !v.quotaExceeded
  }

  /** The checks are independent: the order of the early returns does not
      matter, the request passes exactly when every check does. */
  lemma VerifyRequestParametersExactly(c: Config, v: Incoming, target: string, source: string)
    ensures VerifyRequestParameters(c, v, target, source) <==> PairAcceptable(c, v, target, source)
  {
  }

  /** A language code missing from the ISO-code table reads as "", which
      `empty()` rejects, on either side of the request. */
  lemma MissingIsoCodeRejected(c: Config, v: Incoming, target: string, source: string)
    requires target !in c.isoCodes || source !in c.isoCodes
    ensures !VerifyRequestParameters(c, v, target, source)
  {
  }

  /** Two codes that resolve to the same ISO code are never translated. */
  lemma SameIsoCodeRejected(c: Config, v: Incoming, target: string, source: string)
    requires IsoCode(c, target) == IsoCode(c, source)
    ensures !VerifyRequestParameters(c, v, target, source)
  {
  }

  /** The base class has no key, so it rejects every request. */
  lemma BaseClassRejectsEverything(s: Settings, iso: map<string, string>, v: Incoming, target: string, source: string)
    ensures !VerifyRequestParameters(Config(s, iso, BaseEngine()), v, target, source)
    ensures !VerifyRequest(Config(s, iso, BaseEngine()), v, target)
  {
  }

  /** The deprecated `verify_request($to_language)`: the source language is
      implicitly the default language; the target is compared with it as an
      application code, and only the default language's ISO code is looked
      up. */
  function VerifyRequest(c: Config, v: Incoming, toLanguage: string): (ok: bool)
    ensures ok ==> !Blank(toLanguage) && toLanguage != c.settings.defaultLanguage && !Blank(IsoCode(c, c.settings.defaultLanguage))
    ensures ok ==> !KeyBlank(c.engine.apiKey) && c.engine.extraRequestValidations(toLanguage)
    ensures ok ==> !v.quotaExceeded && !CrawlerBlocked(c, v)
  {
    if KeyBlank(c.engine.apiKey) || Blank(toLanguage) || toLanguage == c.settings.defaultLanguage
       || Blank(IsoCode(c, c.settings.defaultLanguage))
    then false
    else if !c.engine.extraRequestValidations(toLanguage) then false
    else if CrawlerBlocked(c, v) then false
    else if v.quotaExceeded then false
    else true
  }

  /** The conditions of the deprecated check, all together. */
  predicate LegacyAcceptable(c: Config, v: Incoming, toLanguage: string) {
    && !KeyBlank(c.engine.apiKey)
    && !Blank(toLanguage)
    && toLanguage != c.settings.defaultLanguage
    && !Blank(IsoCode(c, c.settings.defaultLanguage))
    && c.engine.extraRequestValidations(toLanguage)
    && !(c.settings.blockCrawlers == "yes" && IsCrawler(v))
    && !v.quotaExceeded
  }

  /** The deprecated check passes exactly when every one of its checks does. */
  lemma VerifyRequestExactly(c: Config, v: Incoming, toLanguage: string)
    ensures VerifyRequest(c, v, toLanguage) <==> LegacyAcceptable(c, v, toLanguage)
  {
  }

  /** A request the two-language form accepts from the default language is
      accepted by the deprecated form too. */
  lemma LegacyAcceptsWhatPairAccepts(c: Config, v: Incoming, toLanguage: string)
    requires VerifyRequestParameters(c, v, toLanguage, c.settings.defaultLanguage)
    ensures VerifyRequest(c, v, toLanguage)
  {
  }

  /** The deprecated form never looks at the target's own ISO code. */
  lemma LegacyIgnoresTargetIsoCode(c: Config, v: Incoming, toLanguage: string, iso: string)
    requires toLanguage != c.settings.defaultLanguage
    ensures VerifyRequest(c, v, toLanguage) == VerifyRequest(c.(isoCodes := c.isoCodes[toLanguage := iso]), v, toLanguage)
  {
    var c' := c.(isoCodes := c.isoCodes[toLanguage := iso]);
    assert IsoCode(c', c.settings.defaultLanguage) == IsoCode(c, c.settings.defaultLanguage);
  }

  /** So the converse fails: a target without an ISO code passes the
      deprecated check but not the two-language one. */
  lemma LegacyAcceptsUnresolvedTarget(c: Config, v: Incoming)
    requires c.settings.defaultLanguage == "en_US" && c.isoCodes == map["en_US" := "en"]
    requires c.engine.apiKey == Key("k") && c.engine.extraRequestValidations("xx")
    requires c.settings.blockCrawlers == "" && !v.quotaExceeded
    ensures VerifyRequest(c, v, "xx")
    ensures !VerifyRequestParameters(c, v, "xx", "en_US")
  {
    assert IsoCode(c, "xx") == "";
  }
}
