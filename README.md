# Résumé language switcher, modelled in Dafny

`script.js` switches a static résumé page between Russian and English. It
keeps the chosen language in a module-level variable and in browser storage
under `resume_language`. It rewrites every element tagged with
`data-lang-ru` / `data-lang-en` (text), `data-lang-ru-alt` /
`data-lang-en-alt` (image `alt`) and the `<title>`. It marks the matching
`.lang-btn` button `active` and reacts to clicks on those buttons.

The model has three modules:

- `Dom` (`dom.dfy`) holds the page as plain data. An attribute is an
  `Option<string>`, so "absent" (`null`) and "present but empty" stay
  distinct. It also holds `Closest`, which stands for `closest('.lang-btn')`
  as a first-match search over the target's ancestor-or-self chain.
- `Localization` (`localization.dfy`) holds the rules as functions. These are
  the initial language, the per-node rule `Localize` and the title's own
  truthiness rule `LocalizeTitle`. The whole page is a value `Page`, and
  `WithLanguage`, `WithButtonsSynced`, `Initialized` and `Clicked` say what
  `setLanguage`, `updateLanguageButtons`, `initLanguage` and
  `handleLanguageSwitch` do to it. Every property is proved as a lemma about
  these functions.
- `Switcher` (`switcher.dfy`) is the script as an object. The class
  `LanguageSwitcher` holds the current language, the storage map, the root
  `lang`, the title and arrays of text nodes, images and buttons. Its
  methods rewrite the arrays element by element, as the script's `forEach`
  loops do. Each method is proved to leave the object in exactly the state
  that the matching `Localization` function gives.

Two behaviours of the script are easy to misread; the model follows the
code:

- The stored language is not checked against `ru`/`en`. Any other non-empty
  stored string becomes the current language, and then no text changes.
- The title block skips an empty attribute, because it tests truthiness.
  A tagged title also matches the general selector, though, so its final
  text always follows the general "present, even if empty" rule.

## Model

| member | source | states |
|---|---|---|
| `Dom.Closest` | script.js:78-79 | gives the first `.lang-btn` on the ancestor-or-self chain; None exactly when no element of the chain is one |
| `Localization.GetItem` | script.js:9 | `getItem` gives the stored value when the key is present and null (None) exactly when it is absent |
| `Localization.Truthy` | script.js:9 | JavaScript truthiness of a string-or-null, used by the fallback to `'ru'` on line 9, the title tests on lines 30 and 32 and the click test on line 82: true only for a present, non-empty string |
| `Localization.InitialLanguage` | script.js:5-9 | the stored value under `resume_language` when it is non-empty, otherwise `"ru"`; never empty; not checked against ru/en |
| `Localization.Localize` | script.js:38-61 | a node takes the attribute for the language whenever it is present, even when empty; with no such attribute (or another language) it keeps its text |
| `Localization.LocalizeTitle` | script.js:26-35 | the title block takes the attribute for the language only when it is non-empty; otherwise it keeps the title |
| `Localization.SyncTitle` | script.js:26-48 | the title block followed by the general pass: attributes are kept, a non-empty attribute for the language always ends as the title, and a title without that attribute is left as it was |
| `Localization.Loaded` | script.js:9 | the state after the script is evaluated: the current language is never empty, is either the stored value or the `"ru"` default used when nothing truthy is stored, and nothing else is touched |
| `Localization.WithLanguage` | script.js:18-62 | setLanguage keeps the page's shape: no node is added, dropped or moved, no `data-lang-*` attribute changes, the title stays present or absent, and the buttons are left alone |
| `Localization.WithButtonsSynced` | script.js:65-74 | updateLanguageButtons changes only the buttons' active flags; every button keeps its `data-lang` and the rest of the page is unchanged |
| `Localization.Initialized` | script.js:12-15 | initLanguage keeps the loaded language, sets the root `lang` to it, writes it back to storage, leaves the document exactly as setLanguage does, and activates exactly the buttons declaring it |
| `Localization.Clicked` | script.js:77-86 | a click that leaves the language alone changes nothing at all; one that changes it resolves to a `.lang-btn` whose `data-lang` is the new, non-empty language and then goes through setLanguage and updateLanguageButtons |
| `Localization.LocalizeIdempotent` | script.js:43-46 | re-applying the node rule to its own result changes nothing |
| `Localization.TitleFollowsGeneralRule` | script.js:26-48 | after both the title block and the general pass, the title is exactly what the general rule gives; an untagged title is untouched |
| `Localization.EmptyTitleAttribute` | script.js:30-33 | an empty Russian title attribute is skipped by the title block but still empties the title through the general pass |
| `Localization.SetLanguageState` | script.js:18-23 | setLanguage makes the language current, writes it to storage under the key (and only that key), and sets the root `lang` |
| `Localization.SetLanguageRewritesNodes` | script.js:25-61 | every text node, image and the title takes its attribute for the language when present (empty included) and otherwise is unchanged; attributes and node order are kept |
| `Localization.UnsupportedLanguageChangesNoText` | script.js:38-61 | a language other than ru and en changes no text, alt or title |
| `Localization.SetLanguageIdempotent` | script.js:18-62 | setLanguage twice with the same language gives the same state, storage and document as once |
| `Localization.RussianOnlyNodeKeepsRussianText` | script.js:43-46 | a node with only a Russian attribute keeps its Russian text after a switch to English |
| `Localization.ButtonsMatchCurrentLanguage` | script.js:65-74 | after updateLanguageButtons a button is active iff its `data-lang` equals the current language; one without `data-lang` is inactive |
| `Localization.ButtonsSyncIdempotent` | script.js:65-74 | updating the buttons twice is the same as once |
| `Localization.FirstVisitIsRussian` | script.js:9-15 | with nothing (or an empty string) stored, the page starts in `"ru"`, stores `"ru"`, and every text node, image alt and title carrying a Russian attribute shows it |
| `Localization.StoredEnglishIsRestored` | script.js:9-15 | with `"en"` stored, every text node, image alt and title with an English attribute shows it, the others keep their text or alt, and exactly the `"en"` buttons are active |
| `Localization.StoredOtherLanguageIsKept` | script.js:5-15 | any other stored non-empty value becomes the current and root language as it is, and no text, alt or title changes |
| `Localization.ClickOutsideButtonsIsIgnored` | script.js:77-79 | a click with no `.lang-btn` on its ancestor-or-self chain changes nothing |
| `Localization.ClickOnInertButtonIsIgnored` | script.js:81-82 | a click resolving to a button whose `data-lang` is missing, empty or already current changes nothing |
| `Localization.ClickSwitchesLanguage` | script.js:81-85 | a click on a button declaring a new language is setLanguage followed by updateLanguageButtons: the language becomes current, stored and the root `lang`, and exactly its buttons are active |
| `Localization.RepeatedClickIsIgnored` | script.js:77-86 | clicking the same place a second time changes nothing |
| `Localization.ClickKeepsLanguageNonEmpty` | script.js:81-83 | a click never makes the current language empty |
| `Switcher.LanguageSwitcher.constructor` | script.js:9 | evaluating the script reads the initial language from storage and changes nothing else |
| `Switcher.LanguageSwitcher.SetLanguage` | script.js:18-62 | the object ends in the state `WithLanguage` gives: title block, general pass over the title, then the text and alt loops |
| `Switcher.LanguageSwitcher.UpdateLanguageButtons` | script.js:65-74 | the button loop ends in the state `WithButtonsSynced` gives |
| `Switcher.LanguageSwitcher.InitLanguage` | script.js:12-15 | ends in the state `Initialized` gives |
| `Switcher.LanguageSwitcher.HandleLanguageSwitch` | script.js:77-86 | ends in the state `Clicked` gives for the clicked target's chain |

## Left out

- DOM semantics are left out. The model does not capture `querySelectorAll` ordering, CSS selector matching, `classList`, or the way setting `textContent` removes child elements. Nodes form flat sequences, and the per-node rule does not depend on order (script.js:38-39, 66-72).
- An element tagged both for text and for `alt` appears once in each sequence. The model treats the two roles independently.
- The `.lang-btn` a click resolves to is an `Element` on the target's chain, not linked to an entry of the page's buttons. So the model does not state that the clicked button itself becomes active. It states only that every button declaring the new language does.
- An image's `alt` is a plain string, so an image with no `alt` attribute cannot be told apart from one with an empty `alt` before the first write.
- Browser storage is a total map. The exceptions `localStorage` can throw when storage is unavailable are not modelled (script.js:9, 20).
- Event wiring and load timing are browser plumbing and are left out. This covers the `readyState` test, the `DOMContentLoaded` deferral, and finding `.language-switcher` and registering the click listener on it (script.js:89-99). A click is a call to `HandleLanguageSwitch` with the target's ancestor-or-self chain. `Clicked` is defined on every page state, so a click that arrives before a deferred initialisation is covered too.
- The `'use strict'` IIFE wrapper and the visual styling of the `active` class have no behaviour to model.
