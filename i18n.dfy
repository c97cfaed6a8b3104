/** The locale policy of the portfolio's internationalization setup: which
    language tag is active at startup, how a chosen tag is persisted, and the
    options handed to the translation runtime. */
module I18n {
  import opened BrowserStorage

  /** The storage key under which the chosen language is remembered. */
  const StorageKey: string := "portfolio-language"

  /** The supported language tags, in the order the source lists them. */
  const SupportedLocales: seq<string> := ["es", "en"]

  /** The locale used when nothing valid is stored. */
  const DefaultLocale: string := "es"

  /** The locale the translation runtime consults when a key is missing. */
  const FallbackLocale: string := "en"

  /** The locales that have a bundled message catalog (the keys of `messages`). */
  const MessageLocales: seq<string> := ["es", "en"]

  /** `['es', 'en'].includes(tag)`: exactly the two bundled tags pass. */
  predicate IsSupported(tag: string): (b: bool)
    ensures b <==> tag == "es" || tag == "en"
  {
    tag in SupportedLocales
  }

  /** JavaScript truthiness of the value `getItem` answers: null and "" are falsy. */
  predicate Truthy(saved: Option<string>): (b: bool)
    ensures b ==> saved.Some?
    ensures saved.Some? ==> (b <==> |saved.value| > 0)
  {
    saved.Some? && saved.value != ""
  }

  /** `getSavedLocale()`: the stored tag when it is supported, otherwise the default.
      It is a function of the stored entries, so reading never changes them. */
  function GetSavedLocale(items: map<string, string>): (r: string)
    ensures IsSupported(r)
    ensures StorageKey in items && IsSupported(items[StorageKey]) ==> r == items[StorageKey]
    ensures StorageKey !in items ==> r == DefaultLocale
    ensures StorageKey in items && !IsSupported(items[StorageKey]) ==> r == DefaultLocale
  {
    var saved := GetItem(items, StorageKey);
    if Truthy(saved) && IsSupported(saved.value) then saved.value else DefaultLocale
  }

  /** The stored entries after `saveLocale(locale)`: the tag is written under the
      storage key when it is supported; any other tag is ignored. */
  function SaveLocaleEffect(items: map<string, string>, locale: string): (r: map<string, string>)
    ensures IsSupported(locale) ==> GetItem(r, StorageKey) == Some(locale)
    ensures !IsSupported(locale) ==> r == items
    ensures r.Keys == if IsSupported(locale) then items.Keys + {StorageKey} else items.Keys
    ensures forall k :: k != StorageKey ==> GetItem(r, k) == GetItem(items, k)
  {
    if IsSupported(locale) then items[StorageKey := locale] else items
  }

  /** `saveLocale(locale)` on the browser's storage object. */
  method SaveLocale(storage: LocalStorage, locale: string)
    modifies storage
    ensures storage.items == SaveLocaleEffect(old(storage.items), locale)
  {
    if IsSupported(locale) {
      storage.SetItem(StorageKey, locale);
    }
  }

  /** The options object given to `createI18n`. The catalogs themselves are not
      modelled; `messageLocales` names the locales that have one. */
  datatype I18nOptions = I18nOptions(
    legacy: bool,
    locale: string,
    fallbackLocale: string,
    messageLocales: seq<string>)

  /** Building the translation instance once, when the module is loaded. */
  method Startup(storage: LocalStorage) returns (options: I18nOptions)
    ensures !options.legacy
    ensures options.locale == GetSavedLocale(storage.items)
    ensures options.fallbackLocale == FallbackLocale
    ensures options.locale in options.messageLocales
    ensures options.fallbackLocale in options.messageLocales
    ensures forall t :: t in options.messageLocales <==> IsSupported(t)
  {
    var locale := GetSavedLocale(storage.items);
    options := I18nOptions(false, locale, FallbackLocale, MessageLocales);
  }

  // ---------------------------------------------------------------------------
  // Properties of one call

  /** A supported tag that was saved is what the next startup reads back. */
  lemma SaveThenGet(items: map<string, string>, locale: string)
    requires IsSupported(locale)
    ensures GetSavedLocale(SaveLocaleEffect(items, locale)) == locale
  {
  }

  /** A rejected tag does not change what the next startup reads. */
  lemma RejectedSaveKeepsLocale(items: map<string, string>, locale: string)
    requires !IsSupported(locale)
    ensures GetSavedLocale(SaveLocaleEffect(items, locale)) == GetSavedLocale(items)
  {
  }

  /** Saving the same tag twice leaves the same entries as saving it once. */
  lemma SaveIdempotent(items: map<string, string>, locale: string)
    ensures SaveLocaleEffect(SaveLocaleEffect(items, locale), locale) == SaveLocaleEffect(items, locale)
  {
  }

  // ---------------------------------------------------------------------------
  // A session: a sequence of `saveLocale` calls

  /** The entries after calling `saveLocale` with each candidate in turn (see
      `SavedAfterAppend` for how one more `SaveLocale` call extends a session).
      Whatever a session leaves under the storage key is either a supported tag
      or the value that was there before. */
  function SavedAfter(items: map<string, string>, candidates: seq<string>): (r: map<string, string>)
    ensures r.Keys <= items.Keys + {StorageKey}
    ensures StorageKey in r ==>
              IsSupported(r[StorageKey]) || (StorageKey in items && r[StorageKey] == items[StorageKey])
    decreases |candidates|
  {
    if candidates == [] then items
    else SaveLocaleEffect(SavedAfter(items, candidates[..|candidates| - 1]), candidates[|candidates| - 1])
  }

  /** Position `i` holds a supported candidate and no later candidate is supported. */
  predicate LastSupportedAt(candidates: seq<string>, i: int) {
    0 <= i < |candidates| && IsSupported(candidates[i]) &&
    forall j :: i < j < |candidates| ==> !IsSupported(candidates[j])
  }

  /** The last supported candidate of a session, if there is one. */
  function LastSupported(candidates: seq<string>): (r: Option<string>)
    ensures r.Some? ==> exists i :: LastSupportedAt(candidates, i) && candidates[i] == r.value
    ensures r.None? <==> forall i :: 0 <= i < |candidates| ==> !IsSupported(candidates[i])
    decreases |candidates|
  {
    if candidates == [] then None
    else
      var n := |candidates|;
      if IsSupported(candidates[n - 1]) then
        assert LastSupportedAt(candidates, n - 1);
        Some(candidates[n - 1])
      else
        var prefix := candidates[..n - 1];
        var r := LastSupported(prefix);
        assert r.Some? ==> exists i :: LastSupportedAt(candidates, i) && candidates[i] == r.value by {
          if r.Some? {
            var i :| LastSupportedAt(prefix, i) && prefix[i] == r.value;
            assert LastSupportedAt(candidates, i);
          }
        }
        assert r.None? ==> forall i :: 0 <= i < n ==> !IsSupported(candidates[i]) by {
          if r.None? {
            forall i | 0 <= i < n ensures !IsSupported(candidates[i]) {
              if i < n - 1 { assert candidates[i] == prefix[i]; }
            }
          }
        }
        r
  }

  /** Last write wins: after a session, startup reads the last supported
      candidate, or what it read before when every candidate was rejected. */
  lemma {:induction false} LastWriteWins(items: map<string, string>, candidates: seq<string>)
    ensures GetSavedLocale(SavedAfter(items, candidates)) ==
            match LastSupported(candidates)
            case Some(locale) => locale
            case None => GetSavedLocale(items)
    decreases |candidates|
  {
    if candidates != [] {
      LastWriteWins(items, candidates[..|candidates| - 1]);
    }
  }

  /** A session never touches an entry under any other key. */
  lemma {:induction false} SessionKeepsOtherKeys(items: map<string, string>, candidates: seq<string>, key: string)
    requires key != StorageKey
    ensures GetItem(SavedAfter(items, candidates), key) == GetItem(items, key)
    decreases |candidates|
  {
    if candidates != [] {
      SessionKeepsOtherKeys(items, candidates[..|candidates| - 1], key);
    }
  }

  /** A session of rejected candidates only leaves the entries exactly as they were. */
  lemma {:induction false} RejectedSessionKeepsStorage(items: map<string, string>, candidates: seq<string>)
    requires forall i :: 0 <= i < |candidates| ==> !IsSupported(candidates[i])
    ensures SavedAfter(items, candidates) == items
    decreases |candidates|
  {
    if candidates != [] {
      RejectedSessionKeepsStorage(items, candidates[..|candidates| - 1]);
    }
  }

  /** One more call at the end of a session: a session that reached the entries
      `SavedAfter(items, candidates)` and then calls `SaveLocale(storage, locale)`
      has reached `SavedAfter(items, candidates + [locale])`. */
  lemma SavedAfterAppend(items: map<string, string>, candidates: seq<string>, locale: string)
    ensures SavedAfter(items, candidates + [locale]) == SaveLocaleEffect(SavedAfter(items, candidates), locale)
  {
  }

  /** Fresh storage starts in Spanish; choosing English sticks across a restart;
      an unsupported choice afterwards changes nothing. Each restart builds the
      options again from the same storage object. */
  method FreshStorageScenario() returns (first: string, afterEn: string, afterDe: string)
    ensures first == "es" && afterEn == "en" && afterDe == "en"
  {
    var storage := new LocalStorage(map[]);
    var options := Startup(storage);
    first := options.locale;
    SaveLocale(storage, "en");
    options := Startup(storage);
    afterEn := options.locale;
    SaveLocale(storage, "de");
    options := Startup(storage);
    afterDe := options.locale;
  }
}
