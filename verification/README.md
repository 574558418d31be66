# Locale selection for the Mestari front end

This project is a Dafny model of the locale-selection logic of the Mestari
web client. The client implements it twice:

- **src/languageStore.js** is a static-bundle store. Both message bundles
  are imported at build time. The active locale is initialised from the
  persisted key `mestariLocale`, accepting only `pt` or `en` and defaulting
  to `pt`. A computed `translations` picks the active bundle and falls back
  to `en`. `setLocale` validates its argument and then updates the active
  locale and the persisted key together.
- **src/i18n.js** is a lazily loading cache built on a vue-i18n instance.
  Its initial-locale resolver checks that the saved value is non-empty and
  on the allow-list `['pt', 'en']`. `loadLocaleMessages(locale)` imports the
  locale's bundle only when the cached one is absent or has no keys. It then
  caches the bundle, makes the locale active and persists it.

The model is functional. Each component is an immutable state record and
each operation is a pure transition.

- `localStorage` is a `map<string, string>` (module `Storage`). `getItem`
  yields an `Option`, and None stands for `null`.
- The dynamic `import()` of a locale's JSON file is an injected `Supplier`,
  a function from locale code to `Option<Bundle>`. None stands for an import
  that threw, which rejects the promise `loadLocaleMessages` returns.
- The contents of `pt.json` and `en.json` are parameters.
- Vue's `ref` and `computed` are plain fields and functions of the state.
- `LoadLocaleMessages` returns a `LoadStep`. It holds the state after the
  call, whether the supplier was invoked, and how the promise settled.
  `RunLoads` chains such calls so that properties spanning several calls can
  be stated.

Modules: `Options` (Some/None), `Storage` (the browser storage and the
`mestariLocale` key), `Bundles` (message bundles), `LanguageStore`
(src/languageStore.js), `I18n` (src/i18n.js), and `Resolvers`, which
relates the two initial-locale resolvers.

Two behaviours of the loader are worth stating plainly:

- `loadLocaleMessages` makes no allow-list check, so no code is rejected
  for being unlisted: any code whose import succeeds, or whose bundle is
  already cached, is activated and persisted (`I18n.UnlistedLocaleIsAccepted`,
  `I18n.UnlistedLocaleIsFulfilled`). Only the resolver at the next start
  repairs a persisted unlisted code back to `pt`.
- An empty bundle is cached and activated, and because it has no keys the
  next call fetches it again (`I18n.EmptyBundleIsFetchedAgain`). At-most-once
  loading therefore holds only for non-empty bundles (`I18n.AtMostOnceLoad`).

## Model

| member | source | states |
|---|---|---|
| LanguageStore.GetInitialLocale | src/languageStore.js:15-18 | The result is always pt or en. It is the saved value or pt, and it is the saved value whenever that value is pt or en; a missing value gives pt |
| LanguageStore.StaticMessages | src/languageStore.js:9-12 | The message table holds exactly the pt and en entries, each mapped to its own bundle |
| LanguageStore.Init | src/languageStore.js:15-19 | The store starts in a valid state (active locale pt or en) over the given storage, at the saved locale when it is supported and at pt when nothing is saved or the saved value is unsupported |
| LanguageStore.Translations | src/languageStore.js:22-24 | The active locale's bundle when the table has it, otherwise the en bundle, and undefined exactly when neither entry exists |
| LanguageStore.SetLocale | src/languageStore.js:27-35 | A supported code becomes the active locale and the persisted value; any other code leaves the state unchanged; no other storage key is written; validity is preserved |
| LanguageStore.SetLocaleIdempotent | src/languageStore.js:27-31 | Applying setLocale twice with the same argument gives the same state as applying it once |
| LanguageStore.SetLocaleSurvivesRestart | src/languageStore.js:15-31 | From any state whose active locale is the one its storage resolves to (the state at module load included), the locale left by setLocale is the one the next start resolves to |
| LanguageStore.RunSetLocale | src/languageStore.js:19-31 | Any series of setLocale calls from a valid state ends in a valid state |
| LanguageStore.RunSetLocaleEndsOnLastSupported | src/languageStore.js:27-35 | After any series of calls the active locale and the persisted value equal the last supported code of the series; with none, the state is unchanged; other keys never change |
| LanguageStore.TranslationsFollowActiveLocale | src/languageStore.js:9-24 | From start-up through any series of calls, the active locale stays pt or en and translations is that locale's own bundle, never the en fallback |
| I18n.Includes | src/i18n.js:6-7 | Array includes on strings holds exactly when the string is an element |
| I18n.GetInitialLocale | src/i18n.js:4-13 | The result is on the allow-list. It is the saved value or pt, and it is the saved value whenever that value is listed; a missing or empty value gives pt |
| I18n.Init | src/i18n.js:4-23 | The instance starts with a listed locale, an empty message table and the given storage: at the saved locale when it is listed, and at pt when nothing is saved or the saved value is empty or unlisted |
| I18n.NeedsLoad | src/i18n.js:27-30 | A locale must be fetched exactly when it has no cached bundle or its cached bundle has no keys; a locale served from the cache has at least one message |
| I18n.LoadLocaleMessages | src/i18n.js:26-38 | The supplier is invoked exactly when the cached bundle is absent or empty. A throwing import rejects the call and changes nothing. On success the locale is active and persisted and has a cached bundle (the fetched one when fetched). Other locales' bundles and other storage keys are untouched |
| I18n.Activate | src/i18n.js:36-37 | The locale becomes active and is written under mestariLocale; the cache and other keys are unchanged |
| I18n.SecondLoadIsCached | src/i18n.js:27-33 | After a call that cached a non-empty bundle, a second call for the same locale does not invoke any supplier and leaves the state as it was |
| I18n.EmptyBundleIsFetchedAgain | src/i18n.js:28-33 | A locale whose import yielded an empty bundle is fetched again by the next call |
| I18n.UnlistedLocaleIsAccepted | src/i18n.js:26-38 | Every code outside the allow-list whose load settles fulfilled is activated and persisted, and the next start resolves the persisted value back to pt |
| I18n.UnlistedLocaleIsFulfilled | src/i18n.js:26-38 | Every code outside the allow-list whose import succeeds loads fulfilled: nothing rejects it for being unlisted |
| I18n.LoadSurvivesRestart | src/i18n.js:4-37 | After a successful call, the next start resolves to the loaded locale when it is listed and to pt otherwise |
| I18n.RunLoads | src/i18n.js:26-38 | In a series of calls, the supplier is invoked only for requested locales and at most as often as each is requested; agreement of the persisted value with the active locale is preserved |
| I18n.CachedStaysCached | src/i18n.js:27-33 | A non-empty cached bundle stays cached, unchanged, through any series of calls, and its locale is never fetched |
| I18n.AtMostOnceLoad | src/i18n.js:27-33 | In any series of calls, a locale whose supplier yields a non-empty bundle is fetched at most once |
| Resolvers.ResolversAgree | src/i18n.js:4-13 | The i18n resolver and the store's resolver pick the same initial locale from every storage |
| Resolvers.StoreChoiceSeenByI18n | src/languageStore.js:27-31 | A language chosen through the store's setLocale is the locale the i18n instance starts with at the next start |

## Left out

- Console output (`console.log`, `console.warn`) is not modelled; it has no effect on the state.
- Vue reactivity is not modelled: `ref` and `computed` become a state field and a pure function, and re-evaluation timing plays no role.
- vue-i18n internals are not modelled. That includes key lookup, the `fallbackLocale: 'en'` resolution and the `legacy`/warning options. Its message table is a map from locale code to bundle, and a locale with no entry stands for what `getLocaleMessage` returns for it.
- The module wrapper of a dynamic import is not modelled: the supplier yields the bundle that `messages.default` holds.
- Storage writes always succeed. A `setItem` that throws (quota, private mode) is not modelled, because the model has no failing storage.
- Storage reads always succeed. A `getItem` at module load that throws because storage access is blocked would abort module evaluation; the resolvers here never fail, because the model has no failing storage.
- The supplier is a fixed function of the locale code, so an import gives the same answer on every call. A failed import followed by a successful one for the same code (a transient network error) cannot be expressed in `RunLoads` or `AtMostOnceLoad`.
- Concurrent, interleaved calls of `loadLocaleMessages` are not modelled. `RunLoads` covers calls that are each awaited before the next, and the code does no coalescing of in-flight loads.
- LanguageStore.Translations: looks entries up by own key only; inherited object properties (`messages['constructor']`) are not modelled, because every state reached through `Init` and `SetLocale` has the active locale pt or en.
- Writes to the exported `currentLocale` ref, or to the exported i18n instance's locale and messages, from outside `setLocale` and `loadLocaleMessages` are not modelled; the invariants (`LanguageStore.Valid`, `LanguageStore.TranslationsFollowActiveLocale`, `I18n.CachedStaysCached`) hold for states reached through `Init` and these operations.
- src/main.js and vite.config.js are not part of this model: they mount the application and configure the build.
