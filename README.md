# Locale policy of the portfolio's internationalization setup

The portfolio application shows its pages in Spanish (`es`, the default) or
English (`en`, the fallback for missing translations). The module
`src/i18n/index.js` decides which language is active when the application
starts, remembers the visitor's choice in the browser's `localStorage` under the
key `portfolio-language`, and passes the chosen locale and the fallback locale to
the translation runtime (`createI18n` of vue-i18n).

This project models that policy in Dafny:

- `storage.dfy`, module `BrowserStorage`: the browser storage as a class
  `LocalStorage` whose one field `items: map<string, string>` holds the stored
  entries; `GetItem` answers `None` (JavaScript `null`) for an absent key and
  `SetItem` overwrites.
- `i18n.dfy`, module `I18n`: the supported tags, `GetSavedLocale` as a function of
  the stored entries (including the JavaScript truthiness guard on the value
  read), `SaveLocale` as a method that changes the storage object only for a
  supported tag (specified by the function `SaveLocaleEffect`), the options
  record built at startup, and lemmas about single calls and about whole
  sessions of `saveLocale` calls (last write wins, other keys are never touched,
  rejected calls change nothing).

## Model

| member | source | states |
|---|---|---|
| BrowserStorage.GetItem | src/i18n/index.js:44 | reading a key answers null exactly when no entry is stored under it, and the stored string itself when there is one |
| BrowserStorage.LocalStorage.SetItem | src/i18n/index.js:58 | the written key then reads back the written value, every other key reads as before, and the entries are the old ones with that key overwritten |
| I18n.IsSupported | src/i18n/index.js:46 | the supported-set check `['es', 'en'].includes(...)`: a tag passes exactly when it is `es` or `en`; the same test guards the write at line 57 |
| I18n.Truthy | src/i18n/index.js:46 | the `savedLocale &&` guard: null fails it, and a stored string passes it exactly when it is non-empty |
| I18n.GetSavedLocale | src/i18n/index.js:43-50 | always a supported tag; the stored tag when it is `es` or `en`; the default `es` when the key is absent or holds any other string (the empty string included); a function of the entries, so reading changes nothing |
| I18n.SaveLocaleEffect | src/i18n/index.js:56-60 | a supported tag is then stored under `portfolio-language`, overwriting any earlier value; an unsupported tag leaves the entries exactly as they were; the set of keys grows by at most that key; every other key reads as before |
| I18n.SaveLocale | src/i18n/index.js:56-60 | the storage object's entries afterwards are exactly those `SaveLocaleEffect` gives for the old entries and the tag |
| I18n.Startup | src/i18n/index.js:71-76 | the options use the Composition API (`legacy` false), the locale read back by `GetSavedLocale`, the fallback `en`, and catalogs for exactly the supported tags `es` and `en` (so the active locale, the fallback and every tag `saveLocale` can store have one) |
| I18n.SaveThenGet | src/i18n/index.js:43-60 | after saving a supported tag, the saved locale read back is that tag |
| I18n.RejectedSaveKeepsLocale | src/i18n/index.js:57-59 | after saving an unsupported tag, the saved locale read back is what it was before |
| I18n.SaveIdempotent | src/i18n/index.js:56-60 | saving the same tag twice leaves the same entries as saving it once |
| I18n.SavedAfter | src/i18n/index.js:56-60 | the entries after a run of `saveLocale` calls: the run adds no key but `portfolio-language`, and whatever it leaves there is a supported tag or the value stored before the run |
| I18n.SavedAfterAppend | src/i18n/index.js:56-60 | one more `saveLocale` call at the end of a session applies the single-call effect to the entries the session had reached |
| I18n.LastSupported | src/i18n/index.js:57 | the candidate at some position that passes the supported-tag check with no later candidate passing it; none exists exactly when every candidate is rejected |
| I18n.LastWriteWins | src/i18n/index.js:43-60 | after any sequence of `saveLocale` calls, the saved locale read back is the last supported candidate, or the one read before the session when none was supported |
| I18n.SessionKeepsOtherKeys | src/i18n/index.js:58 | no sequence of `saveLocale` calls changes the entry under any key other than `portfolio-language` |
| I18n.RejectedSessionKeepsStorage | src/i18n/index.js:57-59 | a sequence of calls with only unsupported tags leaves the entries exactly as they were |
| I18n.FreshStorageScenario | src/i18n/index.js:43-76 | on a fresh storage object, startup reads `es`; after `SaveLocale` with `en` a new startup reads `en`; after a further `SaveLocale` with `de` it still reads `en` |

## Left out

- The content of the translation catalogs `locales/es.json` and `locales/en.json`: they are data files that are not part of this model; only the set of locales that have a catalog is kept. Their key parity is only claimed in a comment, not enforced by code.
- The translation runtime `createI18n` of vue-i18n: key-path lookup, the render-time fallback to `en`, interpolation, and the active locale it holds and switches. It is a foreign library; only the options passed to it are modelled.
- Failures of the browser storage (storage disabled, or a call that throws): the source does not handle them.
- Arguments of `saveLocale` that are not strings (null, undefined, numbers): the candidate is a string here; `includes` rejects every such value just as it rejects an unsupported string.
- Vue reactivity, component rendering and mounting (`src/main.js`): application bootstrap with no logic of its own.
- JavaScript strings are sequences of UTF-16 code units, while a Dafny `char` is a Unicode scalar value: a stored value holding a lone surrogate has no `string` counterpart here. Such a value is never `es` or `en`, so it would read back as `es` like any other unsupported value.
