/**
 * The script itself: one object holding the current language, browser
 * storage and the document, whose methods rewrite the nodes in place one at
 * a time, as the script's forEach loops do. Each method is proved to leave
 * the object in the state the matching function of Localization describes.
 */
module Switcher {
  import opened Dom
  import opened Localization

  class LanguageSwitcher {
    /** The script's `currentLanguage`. */
    var currentLanguage: string
    /** Browser storage, as a total map. */
    var storage: map<string, string>
    /** The root element's `lang` attribute. */
    var rootLang: string
    /** The `<title>` element, if the page has one. */
    var title: Option<TextNode>
    /** The elements carrying `data-lang-ru` / `data-lang-en`, other than the title. */
    const texts: array<TextNode>
    /** The elements carrying `data-lang-ru-alt` / `data-lang-en-alt`. */
    const images: array<ImageNode>
    /** The `.lang-btn` elements. */
    const buttons: array<Button>

    /** The whole object as a value. */
    ghost function State(): Page
      reads this, texts, images, buttons
    {
      Page(currentLanguage, storage, rootLang, title, texts[..], images[..], buttons[..])
    }

    /** Evaluating the script: the current language is read from storage; nothing else happens yet. */
    constructor (storage: map<string, string>, rootLang: string, title: Option<TextNode>,
                 texts: array<TextNode>, images: array<ImageNode>, buttons: array<Button>)
      ensures this.texts == texts && this.images == images && this.buttons == buttons
      ensures State() == Loaded(storage, rootLang, title, texts[..], images[..], buttons[..])
    {
      var stored := GetItem(storage, LanguageKey);
      this.currentLanguage := if Truthy(stored) then stored.value else DefaultLanguage;
      this.storage := storage;
      this.rootLang := rootLang;
      this.title := title;
      this.texts := texts;
      this.images := images;
      this.buttons := buttons;
    }

    /** `setLanguage(lang)`. */
    method SetLanguage(lang: string)
      modifies this, texts, images
      ensures State() == WithLanguage(old(State()), lang)
    {
      currentLanguage := lang;
      storage := storage[LanguageKey := lang];
      rootLang := lang;

      if title.Some? {
        var t := title.value;
        var titleRu := t.attrs.ru;
        var titleEn := t.attrs.en;
        if lang == "ru" && Truthy(titleRu) {
          t := t.(text := titleRu.value);
        } else if lang == "en" && Truthy(titleEn) {
          t := t.(text := titleEn.value);
        }
        // The title also matches the general selector when it carries either attribute.
        if titleRu.Some? || titleEn.Some? {
          if lang == "ru" && titleRu.Some? {
            t := t.(text := titleRu.value);
          } else if lang == "en" && titleEn.Some? {
            t := t.(text := titleEn.value);
          }
        }
        title := Some(t);
      }

      var i := 0;
      while i < texts.Length
        modifies texts
        invariant 0 <= i <= texts.Length
        invariant forall k :: 0 <= k < i ==> texts[k] == SyncText(old(texts[k]), lang)
        invariant forall k :: i <= k < texts.Length ==> texts[k] == old(texts[k])
      {
        var ruText := texts[i].attrs.ru;
        var enText := texts[i].attrs.en;
        if lang == "ru" && ruText.Some? {
          texts[i] := texts[i].(text := ruText.value);
        } else if lang == "en" && enText.Some? {
          texts[i] := texts[i].(text := enText.value);
        }
        i := i + 1;
      }

      var j := 0;
      while j < images.Length
        modifies images
        invariant 0 <= j <= images.Length
        invariant forall k :: 0 <= k < j ==> images[k] == SyncImage(old(images[k]), lang)
        invariant forall k :: j <= k < images.Length ==> images[k] == old(images[k])
      {
        var ruAlt := images[j].attrs.ru;
        var enAlt := images[j].attrs.en;
        if lang == "ru" && ruAlt.Some? {
          images[j] := images[j].(alt := ruAlt.value);
        } else if lang == "en" && enAlt.Some? {
          images[j] := images[j].(alt := enAlt.value);
        }
        j := j + 1;
      }
    }

    /** `updateLanguageButtons()`. */
    method UpdateLanguageButtons()
      modifies buttons
      ensures State() == WithButtonsSynced(old(State()))
    {
      var i := 0;
      while i < buttons.Length
        invariant 0 <= i <= buttons.Length
        invariant forall k :: 0 <= k < i ==> buttons[k] == SyncButton(old(buttons[k]), currentLanguage)
        invariant forall k :: i <= k < buttons.Length ==> buttons[k] == old(buttons[k])
      {
        if buttons[i].dataLang == Some(currentLanguage) {
          buttons[i] := buttons[i].(active := true);
        } else {
          buttons[i] := buttons[i].(active := false);
        }
        i := i + 1;
      }
    }

    /** `initLanguage()`. */
    method InitLanguage()
      modifies this, texts, images, buttons
      ensures State() == Initialized(old(State()))
    {
      SetLanguage(currentLanguage);
      UpdateLanguageButtons();
    }

    /** `handleLanguageSwitch(event)`, the event given as its target's ancestor-or-self chain. */
    method HandleLanguageSwitch(chain: seq<Element>)
      modifies this, texts, images, buttons
      ensures State() == Clicked(old(State()), chain)
    {
      var target := Closest(chain);
      if target.None? {
        return;
      }
      var lang := chain[target.value].dataLang;
      if Truthy(lang) && lang.value != currentLanguage {
        SetLanguage(lang.value);
        UpdateLanguageButtons();
      }
    }
  }
}
