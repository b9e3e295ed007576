/** The `language_id` to locale table of the characteristics handler and its
    English fallback. The language id arrives as the `country` query-string
    parameter, so it is a string and the table is looked up by string key. */
module Locale {

  const DefaultLocale: string := "en-US"

  /** `LANGUAGE_LOCALE_MAP`, keyed as a plain object is: by the key's text. */
  const LanguageLocaleMap: map<string, string> := map[
    "1" := "ru-RU",
    "2" := "en-US",
    "3" := "fr-FR",
    "4" := "it-IT",
    "5" := "es-ES",
    "6" := "de-DE",
    "7" := "pl-PL"]

  /** The locales the table can produce. */
  const Supported: set<string> :=
    {"ru-RU", "en-US", "fr-FR", "it-IT", "es-ES", "de-DE", "pl-PL"}

  /** `LANGUAGE_LOCALE_MAP[country] || "en-US"`: every entry of the table is
      a non-empty string, so only a missing key falls back. The members a
      plain object inherits (`constructor`, `toString`, ...) are not keys
      here; for those the code finds a truthy non-string instead. */
  function ResolveLocale(country: string): (locale: string)
    ensures locale in Supported
    ensures locale != ""
  {
    if country in LanguageLocaleMap && LanguageLocaleMap[country] != "" then LanguageLocaleMap[country]
    else DefaultLocale
  }

  /** Ids 1 to 7 give Russian, English, French, Italian, Spanish, German and
      Polish, in that order. */
  lemma KnownLocales()
    ensures ResolveLocale("1") == "ru-RU" && ResolveLocale("2") == "en-US"
    ensures ResolveLocale("3") == "fr-FR" && ResolveLocale("4") == "it-IT"
    ensures ResolveLocale("5") == "es-ES" && ResolveLocale("6") == "de-DE"
    ensures ResolveLocale("7") == "pl-PL"
  {
  }

  /** English is chosen exactly for id "2" and for every id the table does
      not know, such as "0", "8", "01" or " 1". */
  lemma FallbackToEnglish(country: string)
    ensures ResolveLocale(country) == DefaultLocale <==> country == "2" || country !in LanguageLocaleMap
  {
  }

  /** Each locale comes from exactly one id. */
  lemma LocaleIdsDistinct(a: string, b: string)
    requires a in LanguageLocaleMap && b in LanguageLocaleMap && a != b
    ensures ResolveLocale(a) != ResolveLocale(b)
  {
  }
}
