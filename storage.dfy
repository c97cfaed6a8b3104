/** The browser's client-side key-value storage (window.localStorage), as far as
    the locale policy uses it: string keys, string values, `getItem` answering
    null for an absent key and `setItem` overwriting. */
module BrowserStorage {

  datatype Option<+T> = None | Some(value: T)

  /** `localStorage.getItem(key)`: the stored value, or null (None) when the key is absent. */
  function GetItem(items: map<string, string>, key: string): (r: Option<string>)
    ensures r.None? <==> key !in items
    ensures key in items ==> r == Some(items[key])
  {
    if key in items then Some(items[key]) else None
  }

  /** The storage object. Its only state is the map of stored entries. */
  class LocalStorage {
    var items: map<string, string>

    constructor (initial: map<string, string>)
      ensures items == initial
    {
      items := initial;
    }

    /** `localStorage.setItem(key, value)`: last write wins, every other entry is kept. */
    method SetItem(key: string, value: string)
      modifies this
      ensures items == old(items)[key := value]
      ensures GetItem(items, key) == Some(value)
      ensures forall k :: k != key ==> GetItem(items, k) == GetItem(old(items), k)
    {
      items := items[key := value];
    }
  }
}
