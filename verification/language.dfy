/**
 * The language store: the current interface language, restricted to the
 * supported codes. The browser locale is an input rather than a read of
 * `navigator.language`.
 */
module Language {
  import opened Wrappers

  datatype LanguageInfo = LanguageInfo(code: string, name: string)

  datatype LanguageState = LanguageState(currentLanguage: string)

  const SupportedLanguages: seq<LanguageInfo> :=
    [LanguageInfo("en", "English"), LanguageInfo("es", "Español")]

  /** The store's initial language, before any stored preference is loaded. */
  const InitialState: LanguageState := LanguageState("es")

  /** The first supported language whose code is `code`. */
  function FindLanguage(langs: seq<LanguageInfo>, code: string): (r: Option<LanguageInfo>)
    ensures r.Some? ==> r.value in langs && r.value.code == code
    ensures r.None? <==> forall i :: 0 <= i < |langs| ==> langs[i].code != code
  {
    if |langs| == 0 then None
    else if langs[0].code == code then Some(langs[0])
    else FindLanguage(langs[1..], code)
  }

  predicate IsSupported(code: string) {
    FindLanguage(SupportedLanguages, code).Some?
  }

  /** Exactly English and Spanish are supported. */
  lemma SupportedCodes(code: string)
    ensures IsSupported(code) <==> code == "en" || code == "es"
  {
  }

  lemma InitialStateSupported()
    ensures IsSupported(InitialState.currentLanguage)
  {
  }

  /** `s.slice(0, 2)`: the first two characters, or the whole of a shorter string. */
  function FirstTwo(s: string): (r: string)
    ensures |r| == if |s| < 2 then |s| else 2
    ensures r <= s
  {
    if |s| < 2 then s else s[..2]
  }

  /** `getBrowserLanguage`: the locale's language when supported, else English. */
  function GetBrowserLanguage(locale: string): (r: string)
    ensures IsSupported(r)
    ensures IsSupported(FirstTwo(locale)) ==> r == FirstTwo(locale)
    ensures !IsSupported(FirstTwo(locale)) ==> r == "en"
  {
    match FindLanguage(SupportedLanguages, FirstTwo(locale))
    case Some(lang) => if lang.code != "" then lang.code else "en"
    case None => "en"
  }

  /** `setLanguage(code)`: switch to a supported code; ignore any other. */
  function SetLanguage(st: LanguageState, code: string): (r: LanguageState)
    ensures IsSupported(code) ==> r.currentLanguage == code
    ensures !IsSupported(code) ==> r == st
  {
    if FindLanguage(SupportedLanguages, code).Some? then st.(currentLanguage := code) else st
  }

  lemma SetLanguageIdempotent(st: LanguageState, code: string)
    ensures SetLanguage(SetLanguage(st, code), code) == SetLanguage(st, code)
  {
  }

  /** Setting a language never leaves a supported language for an unsupported one. */
  lemma SetLanguageKeepsSupported(st: LanguageState, code: string)
    requires IsSupported(st.currentLanguage)
    ensures IsSupported(SetLanguage(st, code).currentLanguage)
  {
  }

  /**
   * `initializeLanguage`: keep a stored supported language; otherwise fall
   * back to the browser's language.
   */
  function InitializeLanguage(st: LanguageState, locale: string): (r: LanguageState)
    ensures IsSupported(r.currentLanguage)
    ensures IsSupported(st.currentLanguage) ==> r == st
    ensures !IsSupported(st.currentLanguage) ==> r.currentLanguage == GetBrowserLanguage(locale)
  {
    var browserLang := GetBrowserLanguage(locale);
    if st.currentLanguage == "" || !IsSupported(st.currentLanguage) then
      st.(currentLanguage := browserLang)
    else st
  }

  /**
   * On a first visit nothing is stored, so the store still holds its initial
   * `es`, which is supported: initialization keeps it, and the browser's
   * locale is never consulted.
   */
  lemma FirstVisitKeepsInitial(locale: string)
    ensures InitializeLanguage(InitialState, locale) == InitialState
    ensures InitializeLanguage(InitialState, locale).currentLanguage == "es"
  {
  }

  lemma InitializeLanguageIdempotent(st: LanguageState, locale: string, other: string)
    ensures InitializeLanguage(InitializeLanguage(st, locale), other) == InitializeLanguage(st, locale)
  {
  }
}
