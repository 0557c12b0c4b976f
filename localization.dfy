/**
 * The language switcher's rules as functions on values: the initial
 * language read from storage, the per-node rewrite rule (and the title's
 * variant of it), the whole page as a value and the three things that
 * happen to it (setting a language, resynchronising the buttons, a click),
 * and what is proved about them.
 */
module Localization {
  import opened Dom

  /** The storage key the chosen language is kept under. */
  const LanguageKey := "resume_language"

  /** The language used when storage holds nothing usable. */
  const DefaultLanguage := "ru"

  /** `localStorage.getItem(key)`: null when the key is absent. */
  function GetItem(storage: map<string, string>, key: string): (r: Option<string>)
    ensures r.Some? <==> key in storage
    ensures r.Some? ==> r.value == storage[key]
  {
    if key in storage then Some(storage[key]) else None
  }

  /** JavaScript truthiness of a string-or-null value: neither null nor empty. */
  function Truthy(v: Option<string>): (b: bool)
    ensures b ==> v.Some?
    ensures v.Some? ==> (b <==> |v.value| > 0)
  {
    v.Some? && v.value != ""
  }

  /**
   * The language the script starts with: the stored value unless it is
   * null or empty (`getItem(...) || 'ru'`). The value is not checked
   * against the two supported languages.
   */
  function InitialLanguage(storage: map<string, string>): (r: string)
    ensures r != ""
    ensures LanguageKey in storage && storage[LanguageKey] != "" ==> r == storage[LanguageKey]
    ensures LanguageKey !in storage || storage[LanguageKey] == "" ==> r == DefaultLanguage
  {
    var stored := GetItem(storage, LanguageKey);
    if Truthy(stored) then stored.value else DefaultLanguage
  }

  /** The attribute of a pair that belongs to `lang`; a language other than ru and en has none. */
  function AttrFor(attrs: Attrs, lang: string): Option<string>
  {
    if lang == "ru" then attrs.ru else if lang == "en" then attrs.en else None
  }

  /** Whether an element matches `[data-lang-ru], [data-lang-en]` (or the `-alt` pair for images). */
  predicate Tagged(attrs: Attrs)
  {
    attrs.ru.Some? || attrs.en.Some?
  }

  /**
   * The rule for text and alt nodes: the attribute for `lang` replaces the
   * current value whenever it is present, even when it is empty; an absent
   * attribute leaves the current value as it was.
   */
  function Localize(attrs: Attrs, lang: string, current: string): (r: string)
    ensures AttrFor(attrs, lang).Some? ==> r == AttrFor(attrs, lang).value
    ensures AttrFor(attrs, lang).None? ==> r == current
  {
    if lang == "ru" && attrs.ru.Some? then attrs.ru.value
    else if lang == "en" && attrs.en.Some? then attrs.en.value
    else current
  }

  /**
   * The title block's own rule, which tests the attribute for truthiness:
   * an empty attribute is skipped like an absent one.
   */
  function LocalizeTitle(attrs: Attrs, lang: string, current: string): (r: string)
    ensures Truthy(AttrFor(attrs, lang)) ==> r == AttrFor(attrs, lang).value
    ensures !Truthy(AttrFor(attrs, lang)) ==> r == current
  {
    if lang == "ru" && Truthy(attrs.ru) then attrs.ru.value
    else if lang == "en" && Truthy(attrs.en) then attrs.en.value
    else current
  }

  function SyncText(n: TextNode, lang: string): TextNode
  {
    n.(text := Localize(n.attrs, lang, n.text))
  }

  function SyncImage(n: ImageNode, lang: string): ImageNode
  {
    n.(alt := Localize(n.attrs, lang, n.alt))
  }

  /**
   * The title goes through the title block first; when it carries either
   * attribute it also matches the general selector and goes through the
   * general rule after that.
   */
  function SyncTitle(t: TextNode, lang: string): (r: TextNode)
    ensures r.attrs == t.attrs
    ensures Truthy(AttrFor(t.attrs, lang)) ==> r.text == AttrFor(t.attrs, lang).value
    ensures AttrFor(t.attrs, lang).None? ==> r == t
  {
    var afterTitleBlock := t.(text := LocalizeTitle(t.attrs, lang, t.text));
    if Tagged(t.attrs) then SyncText(afterTitleBlock, lang) else afterTitleBlock
  }

  function SyncButton(b: Button, lang: string): Button
  {
    b.(active := b.dataLang == Some(lang))
  }

  /**
   * Everything the script reads or writes: its current language, browser
   * storage, the root element's `lang`, the title (if the page has one),
   * the localized text nodes, the localized images and the buttons.
   */
  datatype Page = Page(
    current: string,
    storage: map<string, string>,
    rootLang: string,
    title: Option<TextNode>,
    texts: seq<TextNode>,
    images: seq<ImageNode>,
    buttons: seq<Button>)

  /** The page right after the script is evaluated: only the current language is chosen. */
  function Loaded(storage: map<string, string>, rootLang: string, title: Option<TextNode>,
                  texts: seq<TextNode>, images: seq<ImageNode>, buttons: seq<Button>): (r: Page)
    ensures r.current != ""
    ensures GetItem(storage, LanguageKey) == Some(r.current)
            || (r.current == DefaultLanguage && !Truthy(GetItem(storage, LanguageKey)))
    ensures r.storage == storage && r.rootLang == rootLang && r.title == title
    ensures r.texts == texts && r.images == images && r.buttons == buttons
  {
    Page(InitialLanguage(storage), storage, rootLang, title, texts, images, buttons)
  }

  /**
   * What `setLanguage(lang)` does to the page. It keeps the page's shape: no
   * node is added, dropped or moved, no `data-lang-*` attribute changes, the
   * title stays present or absent, and the buttons are left alone.
   */
  function WithLanguage(p: Page, lang: string): (r: Page)
    ensures |r.texts| == |p.texts| && |r.images| == |p.images| && r.buttons == p.buttons
    ensures forall i :: 0 <= i < |p.texts| ==> r.texts[i].attrs == p.texts[i].attrs
    ensures forall i :: 0 <= i < |p.images| ==> r.images[i].attrs == p.images[i].attrs
    ensures r.title.Some? <==> p.title.Some?
    ensures r.title.Some? ==> r.title.value.attrs == p.title.value.attrs
  {
    p.(current := lang,
       storage := p.storage[LanguageKey := lang],
       rootLang := lang,
       title := match p.title
                case None => None
                case Some(t) => Some(SyncTitle(t, lang)),
       texts := seq(|p.texts|, i requires 0 <= i < |p.texts| => SyncText(p.texts[i], lang)),
       images := seq(|p.images|, i requires 0 <= i < |p.images| => SyncImage(p.images[i], lang)))
  }

  /**
   * What `updateLanguageButtons()` does to the page: only the buttons'
   * active flags can change.
   */
  function WithButtonsSynced(p: Page): (r: Page)
    ensures |r.buttons| == |p.buttons|
    ensures forall i :: 0 <= i < |p.buttons| ==> r.buttons[i].dataLang == p.buttons[i].dataLang
    ensures r == p.(buttons := r.buttons)
  {
    p.(buttons := seq(|p.buttons|, i requires 0 <= i < |p.buttons| => SyncButton(p.buttons[i], p.current)))
  }

  /**
   * What `initLanguage()` does to the page. It goes through setLanguage with
   * the language read at load, so that language is written back to storage
   * even when it came from there; then the buttons show it.
   */
  function Initialized(p: Page): (r: Page)
    ensures r.current == p.current && r.rootLang == p.current
    ensures r.storage == p.storage[LanguageKey := p.current]
    ensures r == WithLanguage(p, p.current).(buttons := r.buttons)
    ensures |r.buttons| == |p.buttons|
    ensures forall i :: 0 <= i < |p.buttons| ==> (r.buttons[i].active <==> p.buttons[i].dataLang == Some(p.current))
  {
    WithButtonsSynced(WithLanguage(p, p.current))
  }

  /**
   * What `handleLanguageSwitch` does to the page for a click whose target has
   * the given ancestor-or-self chain: either nothing changes, or the language
   * becomes the non-empty `data-lang` of the `.lang-btn` the click resolves to
   * and the page goes through setLanguage and updateLanguageButtons.
   */
  function Clicked(p: Page, chain: seq<Element>): (r: Page)
    ensures r.current == p.current ==> r == p
    ensures r.current != p.current ==>
      && Closest(chain).Some?
      && chain[Closest(chain).value].dataLang == Some(r.current)
      && r.current != ""
      && r == WithButtonsSynced(WithLanguage(p, r.current))
  {
    match Closest(chain)
    case None => p
    case Some(i) =>
      var lang := chain[i].dataLang;
      if Truthy(lang) && lang.value != p.current then WithButtonsSynced(WithLanguage(p, lang.value)) else p
  }

  // ---------------------------------------------------------------------------
  // Per-node rules

  /** Applying the rule to a value it produced changes nothing. */
  lemma LocalizeIdempotent(attrs: Attrs, lang: string, current: string)
    ensures Localize(attrs, lang, Localize(attrs, lang, current)) == Localize(attrs, lang, current)
  {
  }

  /**
   * Whatever the title block does, the title ends with the text the general
   * rule gives: a tagged title goes through the general rule last, and an
   * untagged one is left alone by both rules.
   */
  lemma TitleFollowsGeneralRule(t: TextNode, lang: string)
    ensures SyncTitle(t, lang) == SyncText(t, lang)
    ensures !Tagged(t.attrs) ==> SyncTitle(t, lang) == t
  {
  }

  /** An empty Russian title attribute: skipped by the title block, applied by the general pass. */
  lemma EmptyTitleAttribute(en: Option<string>, text: string)
    ensures LocalizeTitle(Attrs(Some(""), en), "ru", text) == text
    ensures SyncTitle(TextNode(Attrs(Some(""), en), text), "ru").text == ""
  {
  }

  // ---------------------------------------------------------------------------
  // setLanguage

  /** setLanguage records the language as current, in storage and on the root element. */
  lemma SetLanguageState(p: Page, lang: string)
    ensures WithLanguage(p, lang).current == lang
    ensures WithLanguage(p, lang).rootLang == lang
    ensures WithLanguage(p, lang).storage == p.storage[LanguageKey := lang]
    ensures GetItem(WithLanguage(p, lang).storage, LanguageKey) == Some(lang)
  {
  }

  /**
   * setLanguage rewrites each text node, image and the title by the per-node
   * rule: the attribute for `lang`, empty or not, becomes the text when it is
   * present; otherwise the node keeps its text. Attributes never change and
   * no node is added, dropped or moved.
   */
  lemma SetLanguageRewritesNodes(p: Page, lang: string)
    ensures |WithLanguage(p, lang).texts| == |p.texts|
    ensures forall i :: 0 <= i < |p.texts| && AttrFor(p.texts[i].attrs, lang).Some? ==>
      WithLanguage(p, lang).texts[i] == p.texts[i].(text := AttrFor(p.texts[i].attrs, lang).value)
    ensures forall i :: 0 <= i < |p.texts| && AttrFor(p.texts[i].attrs, lang).None? ==>
      WithLanguage(p, lang).texts[i] == p.texts[i]
    ensures |WithLanguage(p, lang).images| == |p.images|
    ensures forall i :: 0 <= i < |p.images| && AttrFor(p.images[i].attrs, lang).Some? ==>
      WithLanguage(p, lang).images[i] == p.images[i].(alt := AttrFor(p.images[i].attrs, lang).value)
    ensures forall i :: 0 <= i < |p.images| && AttrFor(p.images[i].attrs, lang).None? ==>
      WithLanguage(p, lang).images[i] == p.images[i]
    ensures p.title.None? ==> WithLanguage(p, lang).title.None?
    ensures p.title.Some? && AttrFor(p.title.value.attrs, lang).Some? ==>
      WithLanguage(p, lang).title == Some(p.title.value.(text := AttrFor(p.title.value.attrs, lang).value))
    ensures p.title.Some? && AttrFor(p.title.value.attrs, lang).None? ==>
      WithLanguage(p, lang).title == p.title
  {
  }

  /** A language other than ru and en changes no text, alt or title at all. */
  lemma UnsupportedLanguageChangesNoText(p: Page, lang: string)
    requires lang != "ru" && lang != "en"
    ensures WithLanguage(p, lang).texts == p.texts
    ensures WithLanguage(p, lang).images == p.images
    ensures WithLanguage(p, lang).title == p.title
  {
  }

  /** Setting the same language a second time changes nothing: state, storage and document all stay as after the first. */
  lemma SetLanguageIdempotent(p: Page, lang: string)
    ensures WithLanguage(WithLanguage(p, lang), lang) == WithLanguage(p, lang)
  {
  }

  /** A node with only a Russian attribute keeps the Russian text when the page then switches to English. */
  lemma RussianOnlyNodeKeepsRussianText(p: Page, k: nat, ru: string)
    requires k < |p.texts| && p.texts[k].attrs == Attrs(Some(ru), None)
    ensures WithLanguage(WithLanguage(p, "ru"), "en").texts[k].text == ru
  {
  }

  // ---------------------------------------------------------------------------
  // updateLanguageButtons

  /**
   * After updateLanguageButtons each button is active exactly when its
   * `data-lang` equals the current language, so a button without one is
   * inactive.
   */
  lemma ButtonsMatchCurrentLanguage(p: Page)
    ensures forall i :: 0 <= i < |p.buttons| ==>
      (WithButtonsSynced(p).buttons[i].active <==> p.buttons[i].dataLang == Some(p.current))
    ensures forall i :: 0 <= i < |p.buttons| && p.buttons[i].dataLang.None? ==> !WithButtonsSynced(p).buttons[i].active
  {
  }

  /** Resynchronising the buttons twice is the same as once. */
  lemma ButtonsSyncIdempotent(p: Page)
    ensures WithButtonsSynced(WithButtonsSynced(p)) == WithButtonsSynced(p)
  {
  }

  // ---------------------------------------------------------------------------
  // Initialisation

  /**
   * A first visit (nothing stored, or an empty string): the page starts in
   * "ru", stores "ru", and every text node, image and the title that carries
   * a Russian attribute shows it.
   */
  lemma FirstVisitIsRussian(storage: map<string, string>, rootLang: string, title: Option<TextNode>,
                            texts: seq<TextNode>, images: seq<ImageNode>, buttons: seq<Button>)
    requires LanguageKey !in storage || storage[LanguageKey] == ""
    ensures Initialized(Loaded(storage, rootLang, title, texts, images, buttons)).current == "ru"
    ensures Initialized(Loaded(storage, rootLang, title, texts, images, buttons)).rootLang == "ru"
    ensures GetItem(Initialized(Loaded(storage, rootLang, title, texts, images, buttons)).storage, LanguageKey) == Some("ru")
    ensures forall i :: 0 <= i < |texts| && texts[i].attrs.ru.Some? ==>
      Initialized(Loaded(storage, rootLang, title, texts, images, buttons)).texts[i].text == texts[i].attrs.ru.value
    ensures forall i :: 0 <= i < |images| && images[i].attrs.ru.Some? ==>
      Initialized(Loaded(storage, rootLang, title, texts, images, buttons)).images[i].alt == images[i].attrs.ru.value
    ensures title.Some? && title.value.attrs.ru.Some? ==>
      Initialized(Loaded(storage, rootLang, title, texts, images, buttons)).title == Some(title.value.(text := title.value.attrs.ru.value))
  {
  }

  /**
   * A stored "en": English wherever an English attribute exists (text nodes,
   * images and the title), the old text or alt elsewhere, and exactly the
   * buttons declaring "en" active.
   */
  lemma StoredEnglishIsRestored(storage: map<string, string>, rootLang: string, title: Option<TextNode>,
                                texts: seq<TextNode>, images: seq<ImageNode>, buttons: seq<Button>)
    requires LanguageKey in storage && storage[LanguageKey] == "en"
    ensures Initialized(Loaded(storage, rootLang, title, texts, images, buttons)).current == "en"
    ensures forall i :: 0 <= i < |texts| && texts[i].attrs.en.Some? ==>
      Initialized(Loaded(storage, rootLang, title, texts, images, buttons)).texts[i].text == texts[i].attrs.en.value
    ensures forall i :: 0 <= i < |texts| && texts[i].attrs.en.None? ==>
      Initialized(Loaded(storage, rootLang, title, texts, images, buttons)).texts[i] == texts[i]
    ensures forall i :: 0 <= i < |images| && images[i].attrs.en.Some? ==>
      Initialized(Loaded(storage, rootLang, title, texts, images, buttons)).images[i].alt == images[i].attrs.en.value
    ensures forall i :: 0 <= i < |images| && images[i].attrs.en.None? ==>
      Initialized(Loaded(storage, rootLang, title, texts, images, buttons)).images[i] == images[i]
    ensures title.Some? && title.value.attrs.en.Some? ==>
      Initialized(Loaded(storage, rootLang, title, texts, images, buttons)).title == Some(title.value.(text := title.value.attrs.en.value))
    ensures title.Some? && title.value.attrs.en.None? ==>
      Initialized(Loaded(storage, rootLang, title, texts, images, buttons)).title == title
    ensures forall i :: 0 <= i < |buttons| ==>
      (Initialized(Loaded(storage, rootLang, title, texts, images, buttons)).buttons[i].active <==> buttons[i].dataLang == Some("en"))
  {
  }

  /**
   * A stored value that is neither "ru" nor "en" becomes the current
   * language as it is: no text, alt or title changes and only buttons
   * declaring that very value are active.
   */
  lemma StoredOtherLanguageIsKept(storage: map<string, string>, rootLang: string, title: Option<TextNode>,
                                  texts: seq<TextNode>, images: seq<ImageNode>, buttons: seq<Button>)
    requires LanguageKey in storage && storage[LanguageKey] !in {"", "ru", "en"}
    ensures Initialized(Loaded(storage, rootLang, title, texts, images, buttons)).current == storage[LanguageKey]
    ensures Initialized(Loaded(storage, rootLang, title, texts, images, buttons)).rootLang == storage[LanguageKey]
    ensures Initialized(Loaded(storage, rootLang, title, texts, images, buttons)).texts == texts
    ensures Initialized(Loaded(storage, rootLang, title, texts, images, buttons)).images == images
    ensures Initialized(Loaded(storage, rootLang, title, texts, images, buttons)).title == title
    ensures forall i :: 0 <= i < |buttons| ==>
      var q := Initialized(Loaded(storage, rootLang, title, texts, images, buttons));
      (q.buttons[i].active <==> buttons[i].dataLang == Some(storage[LanguageKey]))
  {
  }

  // ---------------------------------------------------------------------------
  // handleLanguageSwitch

  /** A click with no `.lang-btn` on the target's ancestor-or-self chain changes nothing. */
  lemma ClickOutsideButtonsIsIgnored(p: Page, chain: seq<Element>)
    requires forall j :: 0 <= j < |chain| ==> !chain[j].isLangBtn
    ensures Clicked(p, chain) == p
  {
  }

  /** The first `.lang-btn` on the chain: the button the click resolves to. */
  predicate FirstButton(chain: seq<Element>, k: nat)
  {
    k < |chain| && chain[k].isLangBtn && forall j :: 0 <= j < k ==> !chain[j].isLangBtn
  }

  /** A click resolving to a button whose `data-lang` is missing, empty or already current changes nothing. */
  lemma ClickOnInertButtonIsIgnored(p: Page, chain: seq<Element>, k: nat)
    requires FirstButton(chain, k)
    requires !Truthy(chain[k].dataLang) || chain[k].dataLang.value == p.current
    ensures Clicked(p, chain) == p
  {
  }

  /**
   * A click resolving to a button declaring a new non-empty language makes it
   * current, persists it, and resynchronises the document and the buttons.
   */
  lemma ClickSwitchesLanguage(p: Page, chain: seq<Element>, k: nat, lang: string)
    requires FirstButton(chain, k)
    requires chain[k].dataLang == Some(lang) && lang != "" && lang != p.current
    ensures Clicked(p, chain) == WithButtonsSynced(WithLanguage(p, lang))
    ensures Clicked(p, chain).current == lang
    ensures Clicked(p, chain).rootLang == lang
    ensures GetItem(Clicked(p, chain).storage, LanguageKey) == Some(lang)
    ensures forall i :: 0 <= i < |p.buttons| ==>
      (Clicked(p, chain).buttons[i].active <==> p.buttons[i].dataLang == Some(lang))
  {
  }

  /** Clicking the same place twice is the same as clicking it once. */
  lemma RepeatedClickIsIgnored(p: Page, chain: seq<Element>)
    ensures Clicked(Clicked(p, chain), chain) == Clicked(p, chain)
  {
  }

  /** A click never leaves the script without a language. */
  lemma ClickKeepsLanguageNonEmpty(p: Page, chain: seq<Element>)
    requires p.current != ""
    ensures Clicked(p, chain).current != ""
  {
  }
}
