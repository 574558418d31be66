/** The static-bundle language store of src/languageStore.js.

    Both bundles are imported at build time; the reactive `currentLocale`
    ref becomes the `current` field of an immutable `State`, the computed
    `translations` becomes a pure function of that state, and `setLocale`
    becomes a transition from state to state. */
module LanguageStore {
  import opened Options
  import opened Storage
  import opened Bundles

  const Pt: string := "pt"
  const En: string := "en"

  /** The two codes the store accepts, compared by strict string equality. */
  predicate IsSupported(lang: string)
  {
    lang == Pt || lang == En
  }

  /** The reactive state: the active locale and the browser storage. */
  datatype State = State(current: string, storage: Store)

  /** The invariant the store keeps: the active locale is pt or en. */
  predicate Valid(s: State)
  {
    IsSupported(s.current)
  }

  /** The `messages` table: the pt and en bundles under their codes. */
  function StaticMessages(pt: Bundle, en: Bundle): (m: map<string, Bundle>)
    ensures m.Keys == {Pt, En}
    ensures m[Pt] == pt && m[En] == en
  {
    map[Pt := pt, En := en]
  }

  /** The initial locale: the saved value when it is one of the two
      supported codes, the default pt in every other case, a missing
      value included. */
  function GetInitialLocale(store: Store): (r: string)
    ensures IsSupported(r)
    ensures SavedLocale(store) == Some(r) || r == Pt
    ensures SavedLocale(store).Some? && IsSupported(SavedLocale(store).value) ==>
              r == SavedLocale(store).value
  {
    match SavedLocale(store)
    case Some(saved) => if saved == Pt || saved == En then saved else Pt
    case None => Pt
  }

  /** The state at module load: the active locale is the resolved initial
      one, so a missing or unsupported saved value starts the store at pt. */
  function Init(store: Store): (s: State)
    ensures Valid(s)
    ensures s.storage == store
    ensures SavedLocale(store).Some? && IsSupported(SavedLocale(store).value) ==>
              s.current == SavedLocale(store).value
    ensures SavedLocale(store).None? || !IsSupported(SavedLocale(store).value) ==>
              s.current == Pt
  {
    State(GetInitialLocale(store), store)
  }

  /** The computed `translations`: the bundle of the active locale, or the
      en bundle when the table has no entry for it; None models the
      `undefined` that results when neither entry exists. */
  function Translations(messages: map<string, Bundle>, s: State): (r: Option<Bundle>)
    ensures s.current in messages ==> r == Some(messages[s.current])
    ensures s.current !in messages && En in messages ==> r == Some(messages[En])
    ensures r.None? <==> s.current !in messages && En !in messages
  {
    if s.current in messages then Some(messages[s.current])
    else if En in messages then Some(messages[En])
    else None
  }

  /** `setLocale(lang)`: a supported code becomes the active locale and is
      persisted; any other value changes nothing. No storage key other
      than the locale key is written. */
  function SetLocale(s: State, lang: string): (r: State)
    ensures IsSupported(lang) ==> r.current == lang && SavedLocale(r.storage) == Some(lang)
    ensures !IsSupported(lang) ==> r == s
    ensures forall k :: k != LocaleKey ==> GetItem(r.storage, k) == GetItem(s.storage, k)
    ensures Valid(s) ==> Valid(r)
  {
    if lang == Pt || lang == En then
      State(lang, SetItem(s.storage, LocaleKey, lang))
    else
      s
  }

  /** Applying `setLocale` a second time with the same argument changes
      nothing. */
  lemma SetLocaleIdempotent(s: State, lang: string)
    ensures SetLocale(SetLocale(s, lang), lang) == SetLocale(s, lang)
  {
  }

  /** The choice survives a restart: from a state whose active locale is
      the one its storage resolves to (the state at module load among
      them), the next start resolves to the code `setLocale` accepted, and
      to the unchanged locale otherwise. */
  lemma SetLocaleSurvivesRestart(s: State, lang: string)
    requires GetInitialLocale(s.storage) == s.current
    ensures Init(SetLocale(s, lang).storage).current == SetLocale(s, lang).current
  {
  }

  /** A series of `setLocale` calls, in order. */
  function RunSetLocale(s: State, langs: seq<string>): (r: State)
    ensures Valid(s) ==> Valid(r)
    decreases |langs|
  {
    if |langs| == 0 then s else RunSetLocale(SetLocale(s, langs[0]), langs[1..])
  }

  /** `langs[i]` is the last supported code of the series. */
  predicate IsLastSupported(langs: seq<string>, i: int)
  {
    && 0 <= i < |langs|
    && IsSupported(langs[i])
    && forall j :: i < j < |langs| ==> !IsSupported(langs[j])
  }

  /** After any series of calls the active locale and the persisted value
      are the last supported code of the series; a series without one
      leaves the state as it was; no other storage key ever changes. */
  lemma {:induction false} RunSetLocaleEndsOnLastSupported(s: State, langs: seq<string>)
    ensures (forall i :: 0 <= i < |langs| ==> !IsSupported(langs[i])) ==> RunSetLocale(s, langs) == s
    ensures forall i :: IsLastSupported(langs, i) ==>
              RunSetLocale(s, langs).current == langs[i]
              && SavedLocale(RunSetLocale(s, langs).storage) == Some(langs[i])
    ensures forall k :: k != LocaleKey ==>
              GetItem(RunSetLocale(s, langs).storage, k) == GetItem(s.storage, k)
    decreases |langs|
  {
    if |langs| > 0 {
      var s1 := SetLocale(s, langs[0]);
      var rest := langs[1..];
      RunSetLocaleEndsOnLastSupported(s1, rest);
      assert RunSetLocale(s, langs) == RunSetLocale(s1, rest);
      forall i | IsLastSupported(langs, i)
        ensures RunSetLocale(s, langs).current == langs[i]
        ensures SavedLocale(RunSetLocale(s, langs).storage) == Some(langs[i])
      {
        if i == 0 {
          assert forall j :: 0 <= j < |rest| ==> !IsSupported(rest[j]);
          assert RunSetLocale(s1, rest) == s1;
        } else {
          assert IsLastSupported(rest, i - 1);
        }
      }
      if forall i :: 0 <= i < |langs| ==> !IsSupported(langs[i]) {
        assert s1 == s;
        assert forall j :: 0 <= j < |rest| ==> !IsSupported(rest[j]);
      }
    }
  }

  /** Starting from the initial state and changing language any number of
      times, the active locale stays pt or en, and with the static table the
      `en` fallback of `translations` is never taken: the bundle shown is the
      active locale's own. */
  lemma TranslationsFollowActiveLocale(store: Store, langs: seq<string>, pt: Bundle, en: Bundle)
    ensures Valid(RunSetLocale(Init(store), langs))
    ensures Translations(StaticMessages(pt, en), RunSetLocale(Init(store), langs))
              == Some(if RunSetLocale(Init(store), langs).current == Pt then pt else en)
  {
  }
}
