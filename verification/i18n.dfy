/** The lazily loading message cache of src/i18n.js.

    The vue-i18n instance contributes three pieces of state: its active
    `locale`, and its per-locale message table, seen here as a map from
    locale code to bundle; the browser storage is the third. The dynamic
    `import()` of a locale's JSON file is an injected `Supplier`, whose None
    stands for an import that threw. `loadLocaleMessages` is a pure function
    from the state before the call to the outcome of the call. */
module I18n {
  import opened Options
  import opened Storage
  import opened Bundles

  /** The allow-list the initial-locale resolver consults. */
  const AvailableLocales: seq<string> := ["pt", "en"]

  const DefaultLocale: string := "pt"

  /** Array membership on strings, as the allow-list lookup performs it. */
  function Includes(xs: seq<string>, x: string): (r: bool)
    ensures r <==> x in xs
    decreases |xs|
  {
    |xs| > 0 && (xs[0] == x || Includes(xs[1..], x))
  }

  /** The JavaScript truthiness of a `getItem` result: `null` and the empty
      string are falsy, every other string is truthy. */
  predicate Truthy(saved: Option<string>)
  {
    saved.Some? && saved.value != ""
  }

  /** The initial locale: the saved value when it is non-empty and on the
      allow-list, the default pt for a missing value, an empty string or an
      unsupported value. */
  function GetInitialLocale(store: Store): (r: string)
    ensures r in AvailableLocales
    ensures SavedLocale(store) == Some(r) || r == DefaultLocale
    ensures SavedLocale(store).Some? && SavedLocale(store).value in AvailableLocales ==>
              r == SavedLocale(store).value
    ensures SavedLocale(store) == Some("") ==> r == DefaultLocale
  {
    var saved := SavedLocale(store);
    if Truthy(saved) && Includes(AvailableLocales, saved.value) then saved.value
    else DefaultLocale
  }

  /** The state of the i18n instance and of the browser storage. */
  datatype State = State(locale: string, cache: map<string, Bundle>, storage: Store)

  /** The state right after `createI18n`: the resolved initial locale and
      an empty message table. */
  function Init(store: Store): (s: State)
    ensures s.locale in AvailableLocales
    ensures s.cache == map[]
    ensures s.storage == store
    ensures SavedLocale(store).Some? && SavedLocale(store).value in AvailableLocales ==>
              s.locale == SavedLocale(store).value
    ensures SavedLocale(store).None? || SavedLocale(store).value !in AvailableLocales ==>
              s.locale == DefaultLocale
  {
    State(GetInitialLocale(store), map[], store)
  }

  /** The dynamic import of a locale's bundle: Some(bundle) when the module
      loads, None when the import throws. */
  type Supplier = string -> Option<Bundle>

  /** The cache test of the loader: a locale with no cached bundle, or with
      a bundle that has no keys, must be fetched; a locale with a cached
      bundle holding at least one message is served from the cache. */
  predicate NeedsLoad(cache: map<string, Bundle>, locale: string)
    ensures NeedsLoad(cache, locale) <==> locale !in cache || cache[locale] == map[]
    ensures !NeedsLoad(cache, locale) ==> exists key :: key in cache[locale]
  {
    locale !in cache || IsEmpty(cache[locale])
  }

  /** How the promise returned by `loadLocaleMessages` settles. */
  datatype Settlement = Fulfilled | Rejected

  /** One call of `loadLocaleMessages`: the state it leaves behind, whether
      it invoked the supplier, and how its promise settled. */
  datatype LoadStep = LoadStep(after: State, invoked: bool, settled: Settlement)

  /** `loadLocaleMessages(locale)`. The supplier is invoked exactly when the
      cached bundle is absent or empty. A throwing import rejects the
      promise before anything is written. Otherwise the fetched bundle (if
      any) is cached, the locale becomes active and is persisted. No check
      against the allow-list is made: any code is accepted. */
  function LoadLocaleMessages(s: State, locale: string, supplier: Supplier): (r: LoadStep)
    ensures r.invoked <==> NeedsLoad(s.cache, locale)
    ensures r.settled == Rejected <==> r.invoked && supplier(locale).None?
    ensures r.settled == Rejected ==> r.after == s
    ensures r.settled == Fulfilled ==>
              && r.after.locale == locale
              && SavedLocale(r.after.storage) == Some(locale)
              && locale in r.after.cache
    ensures r.invoked && r.settled == Fulfilled ==> r.after.cache[locale] == supplier(locale).value
    ensures !r.invoked ==> r.after.cache == s.cache
    ensures r.after.cache - {locale} == s.cache - {locale}
    ensures forall k :: k != LocaleKey ==> GetItem(r.after.storage, k) == GetItem(s.storage, k)
  {
    if NeedsLoad(s.cache, locale) then
      match supplier(locale)
      case None => LoadStep(s, true, Rejected)
      case Some(bundle) =>
        var cached := s.(cache := s.cache[locale := bundle]);
        LoadStep(Activate(cached, locale), true, Fulfilled)
    else
      LoadStep(Activate(s, locale), false, Fulfilled)
  }

  /** The last step of the loader: the locale becomes active, then is
      persisted. */
  function Activate(s: State, locale: string): (r: State)
    ensures r.locale == locale
    ensures r.cache == s.cache
    ensures SavedLocale(r.storage) == Some(locale)
    ensures forall k :: k != LocaleKey ==> GetItem(r.storage, k) == GetItem(s.storage, k)
  {
    s.(locale := locale, storage := SetItem(s.storage, LocaleKey, locale))
  }

  /** A second call for a locale whose first call cached a non-empty bundle
      does not invoke the supplier, whatever supplier it is given, and
      leaves the state as the first call left it. */
  lemma SecondLoadIsCached(s: State, locale: string, first: Supplier, second: Supplier)
    requires LoadLocaleMessages(s, locale, first).settled == Fulfilled
    requires !IsEmpty(LoadLocaleMessages(s, locale, first).after.cache[locale])
    ensures !LoadLocaleMessages(LoadLocaleMessages(s, locale, first).after, locale, second).invoked
    ensures LoadLocaleMessages(LoadLocaleMessages(s, locale, first).after, locale, second)
              == LoadStep(LoadLocaleMessages(s, locale, first).after, false, Fulfilled)
  {
  }

  /** An empty bundle does not count as loaded: a locale whose import
      yielded `{}` is fetched again by the next call. */
  lemma EmptyBundleIsFetchedAgain(s: State, locale: string, supplier: Supplier)
    requires supplier(locale) == Some(map[])
    requires NeedsLoad(s.cache, locale)
    ensures LoadLocaleMessages(LoadLocaleMessages(s, locale, supplier).after, locale, supplier).invoked
  {
  }

  /** The loader has no allow-list check: a code outside the list whose
      load settles fulfilled becomes active and is persisted, and only the
      resolver of the next start repairs the persisted value back to the
      default. */
  lemma UnlistedLocaleIsAccepted(s: State, locale: string, supplier: Supplier)
    requires locale !in AvailableLocales
    requires LoadLocaleMessages(s, locale, supplier).settled == Fulfilled
    ensures LoadLocaleMessages(s, locale, supplier).after.locale == locale
    ensures SavedLocale(LoadLocaleMessages(s, locale, supplier).after.storage) == Some(locale)
    ensures Init(LoadLocaleMessages(s, locale, supplier).after.storage).locale == DefaultLocale
  {
  }

  /** Any code outside the allow-list with an importable bundle, "xx" for
      one, loads fulfilled: nothing rejects it for being unlisted. */
  lemma UnlistedLocaleIsFulfilled(s: State, locale: string, supplier: Supplier)
    requires locale !in AvailableLocales
    requires supplier(locale).Some?
    ensures LoadLocaleMessages(s, locale, supplier).settled == Fulfilled
  {
  }

  /** The persisted choice round-trips through a restart: after a fulfilled
      load, the next start resolves to the loaded locale when it is on the
      allow-list, and to the default otherwise. */
  lemma LoadSurvivesRestart(s: State, locale: string, supplier: Supplier)
    requires LoadLocaleMessages(s, locale, supplier).settled == Fulfilled
    ensures Init(LoadLocaleMessages(s, locale, supplier).after.storage).locale
              == (if locale in AvailableLocales then locale else DefaultLocale)
  {
  }

  /** The persisted value and the active locale agree once they agreed
      before, whichever way the call settles. */
  predicate Synced(s: State)
  {
    SavedLocale(s.storage) == Some(s.locale)
  }

  /** The outcome of a series of `loadLocaleMessages` calls made one after
      another, each awaited: the final state and the locales for which the
      supplier was invoked, in order. A rejected call leaves the state as
      it was and the series goes on. */
  datatype Trace = Trace(final: State, fetched: seq<string>)

  function RunLoads(s: State, requests: seq<string>, supplier: Supplier): (t: Trace)
    ensures multiset(t.fetched) <= multiset(requests)
    ensures Synced(s) ==> Synced(t.final)
    decreases |requests|
  {
    if |requests| == 0 then Trace(s, [])
    else
      var step := LoadLocaleMessages(s, requests[0], supplier);
      var rest := RunLoads(step.after, requests[1..], supplier);
      assert requests == [requests[0]] + requests[1..];
      Trace(rest.final, (if step.invoked then [requests[0]] else []) + rest.fetched)
  }

  /** A locale with a non-empty cached bundle stays cached, with the same
      bundle, through any series of calls. */
  lemma {:induction false} CachedStaysCached(s: State, requests: seq<string>, supplier: Supplier, locale: string)
    requires !NeedsLoad(s.cache, locale)
    ensures locale in RunLoads(s, requests, supplier).final.cache
    ensures RunLoads(s, requests, supplier).final.cache[locale] == s.cache[locale]
    ensures locale !in RunLoads(s, requests, supplier).fetched
    decreases |requests|
  {
    if |requests| > 0 {
      var step := LoadLocaleMessages(s, requests[0], supplier);
      assert step.after.cache[locale] == s.cache[locale] by {
        if requests[0] != locale {
          assert locale in step.after.cache - {requests[0]};
        }
      }
      CachedStaysCached(step.after, requests[1..], supplier, locale);
    }
  }

  /** At-most-once load: in any series of calls, the supplier is invoked
      for a locale at most once when it yields a non-empty bundle for it.
      `CachedStaysCached` adds that it is never invoked when that locale's
      non-empty bundle is cached already. */
  lemma {:induction false} AtMostOnceLoad(s: State, requests: seq<string>, supplier: Supplier, locale: string, bundle: Bundle)
    requires supplier(locale) == Some(bundle) && !IsEmpty(bundle)
    ensures multiset(RunLoads(s, requests, supplier).fetched)[locale] <= 1
    decreases |requests|
  {
    if |requests| > 0 {
      var step := LoadLocaleMessages(s, requests[0], supplier);
      var rest := RunLoads(step.after, requests[1..], supplier);
      var head: seq<string> := if step.invoked then [requests[0]] else [];
      assert RunLoads(s, requests, supplier).fetched == head + rest.fetched;
      if requests[0] == locale {
        CachedStaysCached(step.after, requests[1..], supplier, locale);
        assert multiset(rest.fetched)[locale] == 0;
      } else {
        AtMostOnceLoad(step.after, requests[1..], supplier, locale, bundle);
        assert multiset(head)[locale] == 0;
      }
    }
  }
}
