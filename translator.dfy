/**
 * `GeminiTranslator` (app.mjs): which texts reach the translation service and
 * what comes back when they do not. The service itself is the parameter
 * `service`: its answer for a prompt text, `None` when the call fails.
 */
module Translation {
  import opened Wrappers
  import opened JsText
  import opened JsValues
  import opened Papers
  import opened EnvConfig

  /**
   * The constructor: translation is on when `GEMINI_API_KEY` resolves to a
   * non-empty value and the client library could be set up with it.
   */
  function TranslationEnabled(env: map<string, string>, dotEnv: Option<string>, clientReady: bool): (on: bool)
    ensures EnvValue(env, "GEMINI_API_KEY").Some? && clientReady ==> on
    ensures EnvValue(env, "GEMINI_API_KEY").None? && FileValue(dotEnv, "GEMINI_API_KEY").Some? && clientReady ==> on
    ensures EnvValue(env, "GEMINI_API_KEY").None? && FileValue(dotEnv, "GEMINI_API_KEY").None? ==> !on
    ensures !clientReady ==> !on
  {
    var apiKey := GetEnvWithFallback(env, dotEnv, "GEMINI_API_KEY", "");
    apiKey != "" && clientReady
  }

  /** Why a translation call rejects: `text.trim` is not a function of a truthy non-string. */
  datatype TypeError = NotAString

  /**
   * `translateText`: empty or blank text gives `''` before anything else is
   * looked at; with translation off the text comes back as it is; a failed
   * service call also gives the text back, and an answer is trimmed.
   */
  function TranslateText(text: JsValue, enabled: bool, service: string -> Option<string>): (r: Result<string, TypeError>)
    ensures !Truthy(text) ==> r == Ok("")
    ensures Truthy(text) && !text.Str? ==> r.Err?
    ensures text.Str? && IsBlank(text.s) ==> r == Ok("")
    ensures text.Str? && !IsBlank(text.s) && !enabled ==> r == Ok(text.s)
    ensures text.Str? && !IsBlank(text.s) && enabled ==>
      r == Ok(match service(text.s) case Some(a) => Trim(a) case None => text.s)
  {
    if !Truthy(text) then Ok("")
    else if !text.Str? then Err(NotAString)
    else if IsBlank(text.s) then Ok("")
    else if !enabled then Ok(text.s)
    else
      match service(text.s)
      case Some(answer) => Ok(Trim(answer))
      case None => Ok(text.s)
  }

  /** The paper with its own title and abstract as the translations. */
  function Untranslated(p: Paper): (r: Paper)
    ensures r.translatedTitle == p.title && r.translatedAbstract == p.abstractText
    ensures r == p.(translatedTitle := r.translatedTitle, translatedAbstract := r.translatedAbstract)
  {
    p.(translatedTitle := p.title, translatedAbstract := p.abstractText)
  }

  /**
   * `translatePaper`: with translation off, or when logging the title or
   * either translation throws, the paper comes back with its own title and
   * abstract as the translations; otherwise with both translations.
   */
  function TranslatePaper(p: Paper, enabled: bool, service: string -> Option<string>): (r: Paper)
    ensures r == p.(translatedTitle := r.translatedTitle, translatedAbstract := r.translatedAbstract)
    ensures !enabled || !p.title.Str? ==> r == Untranslated(p)
    ensures (enabled && p.title.Str? && TranslateText(p.title, true, service).Ok?
             && TranslateText(p.abstractText, true, service).Ok?) ==>
      r.translatedTitle == Str(TranslateText(p.title, true, service).value)
      && r.translatedAbstract == Str(TranslateText(p.abstractText, true, service).value)
    ensures enabled && TranslateText(p.abstractText, true, service).Err? ==> r == Untranslated(p)
  {
    if !enabled || !p.title.Str? then Untranslated(p)
    else
      match (TranslateText(p.title, true, service), TranslateText(p.abstractText, true, service))
      case (Ok(t), Ok(a)) => p.(translatedTitle := Str(t), translatedAbstract := Str(a))
      case _ => Untranslated(p)
  }

  /** Blank text is never sent to the service, whether translation is on or off. */
  lemma BlankNeverTranslated(s: string, enabled: bool, service: string -> Option<string>)
    requires IsBlank(s)
    ensures TranslateText(Str(s), enabled, service) == Ok("")
  {
  }

  /** With translation off, `translateText` is the identity on non-blank strings. */
  lemma DisabledIsIdentity(s: string, service: string -> Option<string>)
    requires !IsBlank(s)
    ensures TranslateText(Str(s), false, service) == Ok(s)
  {
  }

  /** With translation off the service is never consulted: any two services give the same paper. */
  lemma DisabledIgnoresService(p: Paper, s1: string -> Option<string>, s2: string -> Option<string>)
    ensures TranslatePaper(p, false, s1) == TranslatePaper(p, false, s2) == Untranslated(p)
  {
  }

  /** The translated papers, one per input paper, in order. */
  function TranslateAll(ps: seq<Paper>, enabled: bool, service: string -> Option<string>): (r: seq<Paper>)
    ensures |r| == |ps| && forall i :: 0 <= i < |ps| ==> r[i] == TranslatePaper(ps[i], enabled, service)
  {
    if ps == [] then [] else [TranslatePaper(ps[0], enabled, service)] + TranslateAll(ps[1..], enabled, service)
  }

  /** `translatePapers` with translation off: the same papers, each with its own title and abstract as translations. */
  lemma TranslateAllDisabled(ps: seq<Paper>, service: string -> Option<string>)
    ensures |TranslateAll(ps, false, service)| == |ps|
    ensures forall i :: 0 <= i < |ps| ==>
      TranslateAll(ps, false, service)[i].translatedTitle == ps[i].title
      && TranslateAll(ps, false, service)[i].translatedAbstract == ps[i].abstractText
      && TranslateAll(ps, false, service)[i].(translatedTitle := ps[i].translatedTitle,
                                              translatedAbstract := ps[i].translatedAbstract) == ps[i]
  {
  }

  /**
   * `translatePapers`: with translation off, a map of the passthrough; with it
   * on, one paper at a time with a 2000 ms pause after each. `translatePaper`
   * never rejects, so the loop's own `catch` is never taken.
   */
  method TranslatePapers(ps: seq<Paper>, enabled: bool, service: string -> Option<string>)
    returns (translated: seq<Paper>, paused: nat)
    ensures translated == TranslateAll(ps, enabled, service)
    ensures paused == if enabled then 2000 * |ps| else 0
  {
    if !enabled {
      translated := seq(|ps|, i requires 0 <= i < |ps| => Untranslated(ps[i]));
      paused := 0;
      return;
    }
    translated := [];
    paused := 0;
    var i := 0;
    while i < |ps|
      invariant i <= |ps| && |translated| == i
      invariant forall k :: 0 <= k < i ==> translated[k] == TranslatePaper(ps[k], true, service)
      invariant paused == 2000 * i
    {
      var p := TranslatePaper(ps[i], true, service);
      translated := translated + [p];
      paused := paused + 2000;
      i := i + 1;
    }
  }
}
