/** The two initial-locale resolvers side by side: the store's
    comparison of the saved value with each of the two codes and the i18n
    module's non-empty test followed by an allow-list lookup pick the same
    locale from every storage, because the empty string is on neither
    list. */
module Resolvers {
  import opened Storage
  import LanguageStore
  import I18n

  lemma ResolversAgree(store: Store)
    ensures I18n.GetInitialLocale(store) == LanguageStore.GetInitialLocale(store)
  {
  }

  /** A language chosen through the store is the one the i18n instance
      starts with after a restart. */
  lemma StoreChoiceSeenByI18n(s: LanguageStore.State, lang: string)
    requires LanguageStore.IsSupported(lang)
    ensures I18n.Init(LanguageStore.SetLocale(s, lang).storage).locale == lang
  {
  }
}
