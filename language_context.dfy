/** The language provider (src/contexts/LanguageContext.tsx): the current locale, its
    translation table and the copy of the locale kept in local storage, the three-tier
    lookup `t` and locale switching. The English and Thai tables are abstract maps;
    local storage is a map field of the provider. */
module LanguageContext {
  import opened Wrappers
  import opened Types
  import opened I18n

  /** The local-storage key under which the locale is persisted. */
  const StorageKey: string := "language"

  /** `translations[key]`, else the English string, else the key itself. Only a missing
      entry (`undefined`) falls through: an empty string is returned as it is. */
  function Lookup(current: Table, english: Table, key: string): (r: string)
    ensures key in current ==> r == current[key]
    ensures key !in current && key in english ==> r == english[key]
    ensures key !in current && key !in english ==> r == key
  {
    if key in current then current[key]
    else if key in english then english[key]
    else key
  }

  /** `t(key, params)` as a value, for a provider whose active table is `current`. */
  function Translate(current: Table, english: Table, key: string, params: Option<Params>): string {
    Interpolate(Lookup(current, english, key), params)
  }

  /** `getInitialLanguage`: the stored locale, or 'en' when nothing (or an empty string)
      is stored, or when there is no browser window. */
  function InitialLanguage(hasWindow: bool, storage: map<string, string>): (r: Locale)
    ensures r != ""
    ensures hasWindow && StorageKey in storage && storage[StorageKey] != "" ==> r == storage[StorageKey]
    ensures !(hasWindow && StorageKey in storage && storage[StorageKey] != "") ==> r == "en"
  {
    if hasWindow && StorageKey in storage && storage[StorageKey] != "" then storage[StorageKey] else "en"
  }

  /** The locales for which `availableTranslations` holds a table. */
  predicate HasTable(lang: Locale) {
    lang == "en" || lang == "th"
  }

  /** `availableTranslations[lang] ? lang : 'en'` */
  function Normalise(lang: Locale): (r: Locale)
    ensures HasTable(r)
    ensures r == lang <==> HasTable(lang)
  {
    if HasTable(lang) then lang else "en"
  }

  class LanguageProvider {
    const english: Table
    const thai: Table
    /** `typeof window !== 'undefined'` */
    const hasWindow: bool

    var currentLanguage: Locale
    var translations: Table
    /** The browser's local storage. */
    var storage: map<string, string>

    /** `availableTranslations[lang] || enTranslationsStatic` */
    function TableFor(lang: Locale): Table {
      if lang == "th" then thai else english
    }

    /** The state a locale switch or the mount-time sync leaves: a locale that has a
        table, and that table active. */
    ghost predicate Synced()
      reads this
    {
      HasTable(currentLanguage) && translations == TableFor(currentLanguage)
    }

    /** The first render: state initialised from whatever local storage holds, before
        the mount-time sync has run (an unknown stored locale is still current here). */
    constructor (english: Table, thai: Table, hasWindow: bool, storage: map<string, string>)
      ensures this.english == english && this.thai == thai && this.hasWindow == hasWindow
      ensures this.storage == storage
      ensures currentLanguage == InitialLanguage(hasWindow, storage)
      ensures translations == TableFor(currentLanguage)
    {
      this.english := english;
      this.thai := thai;
      this.hasWindow := hasWindow;
      this.storage := storage;
      var initialLang := InitialLanguage(hasWindow, storage);
      currentLanguage := initialLang;
      translations := if initialLang == "th" then thai else english;
    }

    /** The effect that runs once on mount: re-reads storage and replaces an unknown
        locale by 'en' with the English table. Storage is not written. */
    method MountSync()
      modifies this
      ensures Synced()
      ensures currentLanguage == Normalise(InitialLanguage(hasWindow, storage))
      ensures storage == old(storage)
    {
      var langFromStorage := InitialLanguage(hasWindow, storage);
      var newTranslations := TableFor(langFromStorage);
      var actualLang := if HasTable(langFromStorage) then langFromStorage else "en";
      if currentLanguage != actualLang || translations != newTranslations {
        translations := newTranslations;
        currentLanguage := actualLang;
      }
    }

    /** `setLanguage(newLang)`: switches to `newLang` when it has a table and to 'en'
        otherwise, and persists the locale actually chosen. */
    method SetLanguage(newLang: Locale)
      modifies this
      ensures Synced()
      ensures currentLanguage == Normalise(newLang)
      ensures storage == if hasWindow then old(storage)[StorageKey := currentLanguage] else old(storage)
    {
      var newTranslations := TableFor(newLang);
      var actualLang := if HasTable(newLang) then newLang else "en";
      translations := newTranslations;
      currentLanguage := actualLang;
      if hasWindow {
        storage := storage[StorageKey := actualLang];
      }
    }

    /** `t(key, params)` */
    method T(key: string, params: Option<Params>) returns (str: string)
      ensures str == Translate(translations, english, key, params)
    {
      if key in translations {
        str := translations[key];
      } else if key in english {
        str := english[key];
      } else {
        str := key;
      }
      str := ApplyParams(str, params);
    }
  }

  /** `t` and `getEnglishTranslation` differ on the English table only where a string is
      empty: `t` returns the empty string, `getEnglishTranslation` the key. */
  lemma LookupVersusEnglishLookup(english: Table, key: string)
    ensures key in english && english[key] == "" ==>
      Lookup(english, english, key) == "" && EnglishLookup(english, key) == key
    ensures !(key in english && english[key] == "") ==>
      Lookup(english, english, key) == EnglishLookup(english, key)
  {
  }

  /** A locale persisted by `setLanguage` is the one the next page load starts with,
      and the mount-time sync keeps it. */
  lemma PersistedLocaleRestored(storage: map<string, string>, newLang: Locale)
    ensures InitialLanguage(true, storage[StorageKey := Normalise(newLang)]) == Normalise(newLang)
    ensures Normalise(InitialLanguage(true, storage[StorageKey := Normalise(newLang)])) == Normalise(newLang)
  {
  }

  /** An unknown or missing stored locale ends up as 'en' after the mount-time sync. */
  lemma UnknownStoredLocaleIsEnglish(hasWindow: bool, storage: map<string, string>)
    requires !(hasWindow && StorageKey in storage && HasTable(storage[StorageKey]))
    ensures Normalise(InitialLanguage(hasWindow, storage)) == "en"
  {
  }
}
