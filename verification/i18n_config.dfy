/**
 * The locale tables of lib/i18n-config.ts: the supported locale codes, the
 * default locale and the language picker's options.
 */
module I18nConfig {

  /** SUPPORTED_LOCALES. */
  const SupportedLocales: seq<string> := ["en", "es-ES", "it-IT"]

  /** DEFAULT_LOCALE. */
  const DefaultLocale: string := "en"

  datatype LanguageOption = LanguageOption(code: string, name: string, flag: string, labelKey: string)

  /** LANGUAGE_OPTIONS. */
  const LanguageOptions: seq<LanguageOption> := [
    LanguageOption("en", "English", "gb", "en"),
    LanguageOption("es-ES", "Espanol (Espana)", "es", "esES"),
    LanguageOption("it-IT", "Italiano (Italia)", "it", "itIT")
  ]

  function Codes(options: seq<LanguageOption>): (r: seq<string>)
    ensures |r| == |options|
    ensures forall i :: 0 <= i < |options| ==> r[i] == options[i].code
  {
    seq(|options|, i requires 0 <= i < |options| => options[i].code)
  }

  predicate Distinct(xs: seq<string>) {
    forall i, j :: 0 <= i < j < |xs| ==> xs[i] != xs[j]
  }

  /**
   * The tables agree: the default is supported, the picker offers exactly
   * the supported codes in the same order, each once, and no two options
   * share a flag or a label key.
   */
  lemma TablesConsistent()
    ensures DefaultLocale in SupportedLocales
    ensures Codes(LanguageOptions) == SupportedLocales
    ensures Distinct(SupportedLocales)
    ensures forall i, j :: 0 <= i < j < |LanguageOptions| ==>
              LanguageOptions[i].flag != LanguageOptions[j].flag
              && LanguageOptions[i].labelKey != LanguageOptions[j].labelKey
  {
  }
}
