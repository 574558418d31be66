/** The browser's `localStorage`, seen as a finite map from key to string
    value. Only the operations the locale code uses are modelled:
    `getItem`, which yields `null` for a missing key, and `setItem`. */
module Storage {
  import opened Options

  type Store = map<string, string>

  /** The one key under which the user's language choice is persisted. */
  const LocaleKey: string := "mestariLocale"

  /** `localStorage.getItem(key)`: the stored string, or None for `null`. */
  function GetItem(store: Store, key: string): (r: Option<string>)
    ensures r.Some? <==> key in store
    ensures r.Some? ==> r.value == store[key]
  {
    if key in store then Some(store[key]) else None
  }

  /** `localStorage.setItem(key, value)`: a later read of `key` yields
      `value`, and every other key reads as before. */
  function SetItem(store: Store, key: string, value: string): (r: Store)
    ensures GetItem(r, key) == Some(value)
    ensures forall k :: k != key ==> GetItem(r, k) == GetItem(store, k)
    ensures r.Keys == store.Keys + {key}
  {
    store[key := value]
  }

  /** The value persisted under the locale key, if any. */
  function SavedLocale(store: Store): Option<string>
  {
    GetItem(store, LocaleKey)
  }
}
