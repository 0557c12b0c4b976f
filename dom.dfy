/**
 * The part of the résumé page that the language switcher reads and writes,
 * as plain values: attribute pairs, text nodes, image nodes, the language
 * buttons, and the chain of elements an event target sits in.
 */
module Dom {

  /** An attribute read with getAttribute: None is null (absent), Some("") is present but empty. */
  datatype Option<T> = None | Some(value: T)

  /**
   * The two language attributes an element may carry: `data-lang-ru` and
   * `data-lang-en` on text nodes and on the title, `data-lang-ru-alt` and
   * `data-lang-en-alt` on images.
   */
  datatype Attrs = Attrs(ru: Option<string>, en: Option<string>)

  /** An element whose text content is localized (also the shape of the title element). */
  datatype TextNode = TextNode(attrs: Attrs, text: string)

  /** An element whose `alt` attribute is localized. */
  datatype ImageNode = ImageNode(attrs: Attrs, alt: string)

  /** A `.lang-btn` button: its `data-lang` attribute and whether it has the `active` class. */
  datatype Button = Button(dataLang: Option<string>, active: bool)

  /** An element on the way from an event target to the root: is it a `.lang-btn`, and its `data-lang`. */
  datatype Element = Element(isLangBtn: bool, dataLang: Option<string>)

  /**
   * `closest('.lang-btn')`: the position of the first `.lang-btn` in an
   * ancestor-or-self chain (the target first, then its parent, and so on),
   * or None when no element of the chain is one.
   */
  function Closest(chain: seq<Element>): (r: Option<nat>)
    ensures r.Some? ==> r.value < |chain| && chain[r.value].isLangBtn
    ensures r.Some? ==> forall j :: 0 <= j < r.value ==> !chain[j].isLangBtn
    ensures r.None? <==> forall j :: 0 <= j < |chain| ==> !chain[j].isLangBtn
  {
    if |chain| == 0 then None
    else if chain[0].isLangBtn then Some(0)
    else
      match Closest(chain[1..])
      case None => None
      case Some(i) => Some(i + 1)
  }
}
