/**
 * The locale helpers: which locale the application starts in (the
 * remembered one, else the page's `lang`, else English), and switching to
 * another one, which keeps the localization library, the page's `lang`
 * attribute and the remembered locale in step.
 */
module LocaleUtils {
  import opened Wrappers
  import opened BrowserStorage

  /** The key the chosen locale is remembered under. */
  const LocaleStorageKey := "preferred-locale"

  /** The locales the application has messages for. */
  const SupportedLocales := ["en", "tr"]

  /** `getHtmlLang` on the attribute's value: the attribute, or English when it is empty. */
  function HtmlLangOr(lang: string): (r: string)
    ensures r != []
    ensures lang == [] ==> r == "en"
    ensures lang != [] ==> r == lang
  {
    if lang == [] then "en" else lang
  }

  /**
   * The target locale of `initializeLocale`. A remembered locale wins when it
   * is supported (the empty string, which is falsy, is not); otherwise the
   * page's language when it is supported; otherwise English.
   */
  function ResolveLocale(stored: Option<string>, htmlLang: string): (r: string)
    ensures r in SupportedLocales
  {
    if stored.Some? && stored.value != [] && stored.value in SupportedLocales then stored.value
    else if htmlLang in SupportedLocales then htmlLang
    else "en"
  }

  /** The priority of `ResolveLocale`: remembered, then page, then English, each only when supported. */
  lemma ResolvePriority(stored: Option<string>, htmlLang: string)
    ensures stored.Some? && stored.value in SupportedLocales ==> ResolveLocale(stored, htmlLang) == stored.value
    ensures !(stored.Some? && stored.value in SupportedLocales) && htmlLang in SupportedLocales ==>
      ResolveLocale(stored, htmlLang) == htmlLang
    ensures !(stored.Some? && stored.value in SupportedLocales) && htmlLang !in SupportedLocales ==>
      ResolveLocale(stored, htmlLang) == "en"
  {
  }

  /**
   * Resolution is stable: once the resolved locale is remembered, resolving
   * again gives it back, whatever the page says.
   */
  lemma ResolveStable(stored: Option<string>, htmlLang: string, laterLang: string)
    ensures var t := ResolveLocale(stored, htmlLang);
      ResolveLocale(Some(t), laterLang) == t
  {
    var t := ResolveLocale(stored, htmlLang);
    assert t == "en" || t == "tr";
  }

  /** How the promise of `initializeLocale` settles: resolved, or rejected by an exception nobody catches. */
  datatype Settled = Resolved | Rejected(error: StorageError)

  /**
   * The page and the localization library: the `lang` attribute of the
   * document element, the library's active locale (`getLocale`), the
   * storage, and the `locale-changed` events dispatched on the window.
   */
  class LocaleEnvironment {
    var htmlLang: string
    var activeLocale: string
    const storage: WebStorage
    /** The details (`locale`) of the `locale-changed` events dispatched so far. */
    var events: seq<string>

    constructor (htmlLang: string, activeLocale: string, storage: WebStorage)
      ensures this.htmlLang == htmlLang && this.activeLocale == activeLocale && this.storage == storage
      ensures events == []
    {
      this.htmlLang := htmlLang;
      this.activeLocale := activeLocale;
      this.storage := storage;
      events := [];
    }

    /** The locale `initializeLocale` aims at in the current state, when the storage can be read. */
    function Target(): string
      reads this, storage
    {
      ResolveLocale(storage.Lookup(LocaleStorageKey), HtmlLangOr(htmlLang))
    }

    /** `getHtmlLang`. */
    method GetHtmlLang() returns (r: string)
      ensures r == HtmlLangOr(htmlLang)
    {
      r := if htmlLang == [] then "en" else htmlLang;
    }

    /** `setHtmlLang`. */
    method SetHtmlLang(locale: string)
      modifies this
      ensures htmlLang == locale
      ensures activeLocale == old(activeLocale) && events == old(events)
    {
      htmlLang := locale;
    }

    /** `getStoredLocale`: the remembered locale or `null`; it throws when the storage does. */
    method GetStoredLocale() returns (r: Result<Option<string>, StorageError>)
      ensures storage.available ==> r == Success(storage.Lookup(LocaleStorageKey))
      ensures !storage.available ==> r == Failure(Unavailable)
    {
      r := storage.GetItem(LocaleStorageKey);
    }

    /** `setStoredLocale`: remember the locale; it throws when the storage does. */
    method SetStoredLocale(locale: string, fits: bool) returns (r: Result<(), StorageError>)
      modifies storage
      ensures r.Success? <==> storage.available && fits
      ensures !storage.available ==> r == Failure(Unavailable)
      ensures storage.available && !fits ==> r == Failure(QuotaExceeded)
      ensures r.Success? ==> storage.items == old(storage.items)[LocaleStorageKey := locale]
      ensures r.Failure? ==> storage.items == old(storage.items)
      ensures storage.available == old(storage.available)
    {
      r := storage.SetItem(LocaleStorageKey, locale, fits);
    }

    /**
     * The state change of a successful `setLocale` of the library: the
     * locale becomes the active one. `loaded` is whether the library could
     * load the locale's messages (the call rejects otherwise).
     */
    method SetLocale(locale: string, loaded: bool) returns (ok: bool)
      modifies this
      ensures ok == loaded
      ensures ok ==> activeLocale == locale
      ensures !ok ==> activeLocale == old(activeLocale)
      ensures htmlLang == old(htmlLang) && events == old(events)
    {
      ok := loaded;
      if ok {
        activeLocale := locale;
      }
    }

    /**
     * `initializeLocale`. A storage that cannot be read rejects the call
     * before anything changes. When the library is not yet on the target,
     * it is switched; after that the page's language, then the remembered
     * locale are set and the event dispatched, and a failure at any of these
     * steps is caught and stops the rest. When the library is already on the
     * target, the target is still remembered and the event still dispatched,
     * and a failed write rejects the call.
     */
    method InitializeLocale(loaded: bool, fits: bool) returns (s: Settled)
      modifies this, storage
      ensures !old(storage.available) ==>
        && s == Rejected(Unavailable)
        && htmlLang == old(htmlLang) && activeLocale == old(activeLocale)
        && events == old(events) && storage.items == old(storage.items)
      ensures old(storage.available) && old(activeLocale) != old(Target()) ==>
        && s == Resolved
        && (loaded <==> activeLocale == old(Target()))
        && (loaded ==> htmlLang == old(Target()))
        && (!loaded ==> htmlLang == old(htmlLang) && activeLocale == old(activeLocale))
        && (loaded && fits ==> storage.items == old(storage.items)[LocaleStorageKey := old(Target())]
                               && events == old(events) + [old(Target())])
        && (!(loaded && fits) ==> storage.items == old(storage.items) && events == old(events))
      ensures old(storage.available) && old(activeLocale) == old(Target()) ==>
        && htmlLang == old(htmlLang) && activeLocale == old(activeLocale)
        && (fits ==> s == Resolved && storage.items == old(storage.items)[LocaleStorageKey := old(Target())]
                     && events == old(events) + [old(Target())])
        && (!fits ==> s == Rejected(QuotaExceeded) && storage.items == old(storage.items) && events == old(events))
      ensures storage.available == old(storage.available)
    {
      var stored := GetStoredLocale();
      if stored.Failure? {
        return Rejected(stored.error);
      }
      var lang := GetHtmlLang();
      var target := ResolveLocale(stored.value, lang);
      if activeLocale != target {
        var ok := SetLocale(target, loaded);
        if ok {
          SetHtmlLang(target);
          var w := SetStoredLocale(target, fits);
          if w.Success? {
            events := events + [target];
          }
        }
        s := Resolved;
      } else {
        var w := SetStoredLocale(target, fits);
        if w.Failure? {
          return Rejected(w.error);
        }
        events := events + [target];
        s := Resolved;
      }
    }

    /**
     * `switchLocale`: when the library switches, the page's language and
     * then the remembered locale follow and the event is dispatched; a
     * failure is caught and stops the steps after it, so a library that
     * fails leaves everything as it was.
     */
    method SwitchLocale(newLocale: string, loaded: bool, fits: bool)
      modifies this, storage
      ensures !loaded ==>
        && htmlLang == old(htmlLang) && activeLocale == old(activeLocale)
        && storage.items == old(storage.items) && events == old(events)
      ensures loaded ==> activeLocale == newLocale && htmlLang == newLocale
      ensures loaded && storage.available && fits ==>
        storage.items == old(storage.items)[LocaleStorageKey := newLocale] && events == old(events) + [newLocale]
      ensures !(loaded && storage.available && fits) ==> storage.items == old(storage.items) && events == old(events)
      ensures storage.available == old(storage.available)
    {
      var ok := SetLocale(newLocale, loaded);
      if !ok {
        return;
      }
      SetHtmlLang(newLocale);
      var w := SetStoredLocale(newLocale, fits);
      if w.Success? {
        events := events + [newLocale];
      }
    }

    /** `getCurrentLocale`: the library's active locale. */
    method GetCurrentLocale() returns (r: string)
      ensures r == activeLocale
    {
      r := activeLocale;
    }
  }

  /**
   * After a switch to a supported locale that was remembered, the next start
   * of the application resolves to that locale, whatever the page says.
   */
  lemma SwitchRemembered(items: map<string, string>, locale: string, laterLang: string)
    requires locale in SupportedLocales
    ensures ResolveLocale(LookupIn(items[LocaleStorageKey := locale], LocaleStorageKey), HtmlLangOr(laterLang)) == locale
  {
  }
}
