/**
 * Locale resolution and persistence of the frontend: the three supported
 * locales, the catalog lookup that falls back to English, and the locale
 * preference kept under one key of the browser's `localStorage`.
 */
module I18n {

  import opened Wrappers

  datatype Locale = En | Hi | Mr

  function Code(l: Locale): string {
    match l
    case En => "en"
    case Hi => "hi"
    case Mr => "mr"
  }

  /** The locale a code names, if it names one of the three. */
  function ParseLocale(code: string): (l: Option<Locale>)
    ensures l.Some? ==> Code(l.value) == code
  {
    if code == "en" then Some(En)
    else if code == "hi" then Some(Hi)
    else if code == "mr" then Some(Mr)
    else None
  }

  /** Codes and locales correspond one to one. */
  lemma ParseCode(l: Locale)
    ensures ParseLocale(Code(l)) == Some(l)
  {
  }

  /** `localeNames`: the display name of every supported locale. */
  const LocaleNames: map<Locale, string> := map[En := "English", Hi := "हिंदी (Hindi)", Mr := "मराठी (Marathi)"]

  /** `localeNames` has an entry for exactly the three locales. */
  lemma LocaleNamesComplete()
    ensures LocaleNames.Keys == {En, Hi, Mr}
    ensures forall l: Locale :: l in LocaleNames
  {
    forall l: Locale ensures l in LocaleNames {
      assert l.En? || l.Hi? || l.Mr?;
    }
  }

  /** The strings of the `chat` group of a translation catalog that the chat box reads. */
  datatype ChatStrings = ChatStrings(welcomeTitle: string, welcomeMessage: string, placeholder: string, error: string)

  /** The `common` group: the three confidence labels. */
  datatype CommonStrings = CommonStrings(high: string, medium: string, low: string)

  /** One translation catalog (the contents of `en.json`, `hi.json` or `mr.json`), restricted to the keys the core reads. */
  datatype Catalog = Catalog(chat: ChatStrings, common: CommonStrings, sidebarWeather: string, sidebarTips: string, appLanguage: string)

  /** `locales`: one catalog per supported locale. */
  datatype Catalogs = Catalogs(en: Catalog, hi: Catalog, mr: Catalog)

  function CatalogOf(cats: Catalogs, l: Locale): Catalog {
    match l
    case En => cats.en
    case Hi => cats.hi
    case Mr => cats.mr
  }

  /** `locales[code]`: defined only for the three supported codes. */
  function Lookup(cats: Catalogs, code: string): Option<Catalog> {
    if code == "en" then Some(cats.en)
    else if code == "hi" then Some(cats.hi)
    else if code == "mr" then Some(cats.mr)
    else None
  }

  /** `getTranslations`: `locales[code] || locales.en`. */
  function GetTranslations(cats: Catalogs, code: string): Catalog {
    match Lookup(cats, code)
    case Some(c) => c
    case None => cats.en
  }

  /** Resolution is total: a supported code gets its own catalog, any other code the English one. */
  lemma GetTranslationsTotal(cats: Catalogs, code: string)
    ensures ParseLocale(code).Some? ==> GetTranslations(cats, code) == CatalogOf(cats, ParseLocale(code).value)
    ensures ParseLocale(code).None? ==> GetTranslations(cats, code) == GetTranslations(cats, Code(En))
  {
  }

  /** The `localStorage` key holding the preference. */
  const LocaleKey: string := "locale"

  /** What `getStoredLocale` answers for a storage state: the stored code if it names a locale, otherwise English. */
  function StoredLocale(hasWindow: bool, storage: map<string, string>): Locale {
    if hasWindow && LocaleKey in storage && ParseLocale(storage[LocaleKey]).Some? then
      ParseLocale(storage[LocaleKey]).value
    else
      En
  }

  /** The storage after `setStoredLocale(l)`. */
  function StoreLocale(hasWindow: bool, storage: map<string, string>, l: Locale): map<string, string> {
    if hasWindow then storage[LocaleKey := Code(l)] else storage
  }

  /** Writing a locale and reading it back gives that locale whenever `window` exists. */
  lemma StoreThenRead(storage: map<string, string>, l: Locale)
    ensures StoredLocale(true, StoreLocale(true, storage, l)) == l
  {
    ParseCode(l);
  }

  /** Writing touches only the `locale` key, and nothing at all without `window`. */
  lemma StoreTouchesOnlyKey(hasWindow: bool, storage: map<string, string>, l: Locale)
    ensures StoreLocale(hasWindow, storage, l).Keys == storage.Keys + (if hasWindow then {LocaleKey} else {})
    ensures forall k :: k in storage && k != LocaleKey ==> StoreLocale(hasWindow, storage, l)[k] == storage[k]
    ensures !hasWindow ==> StoreLocale(hasWindow, storage, l) == storage
  {
  }

  /** Without `window` the answer is English whatever the storage holds. */
  lemma NoWindowIgnoresStorage(s1: map<string, string>, s2: map<string, string>)
    ensures StoredLocale(false, s1) == StoredLocale(false, s2) == En
  {
  }

  /**
   * The browser side of the locale store: whether `window` exists (it does
   * not during server rendering) and the string-to-string `localStorage`.
   */
  class Browser {
    var hasWindow: bool
    var storage: map<string, string>

    constructor (hasWindow: bool, storage: map<string, string>)
      ensures this.hasWindow == hasWindow && this.storage == storage
    {
      this.hasWindow := hasWindow;
      this.storage := storage;
    }

    /** `getStoredLocale`: reads the `locale` key and accepts only `en`, `hi` or `mr`. */
    method GetStoredLocale() returns (l: Locale)
      ensures l == StoredLocale(hasWindow, storage)
      ensures !hasWindow ==> l == En
      ensures hasWindow && LocaleKey in storage ==> (Code(l) == storage[LocaleKey] || (l == En && ParseLocale(storage[LocaleKey]).None?))
    {
      if hasWindow {
        if LocaleKey in storage {
          var stored := storage[LocaleKey];
          if stored != "" && (stored == "en" || stored == "hi" || stored == "mr") {
            l := if stored == "en" then En else if stored == "hi" then Hi else Mr;
            return;
          }
        }
      }
      l := En;
    }

    /** `setStoredLocale`: writes the locale's code under the `locale` key when `window` exists. */
    method SetStoredLocale(l: Locale)
      modifies this`storage
      ensures storage == StoreLocale(hasWindow, old(storage), l)
      ensures hasWindow ==> StoredLocale(hasWindow, storage) == l
    {
      if hasWindow {
        storage := storage[LocaleKey := Code(l)];
      }
      StoreThenRead(old(storage), l);
    }
  }
}
