/**
 * An already tokenised XML element tree: what the streaming reader walks and
 * what the streaming writer produces. Element content keeps the document
 * order of text runs and child elements.
 */
module Xml {
  import opened Wrappers
  import Text

  /** An attribute: namespace URI (None for an unprefixed attribute), local name, value. */
  datatype XmlAttr = XmlAttr(ns: Option<string>, name: string, value: string)

  datatype XmlContent =
    | Chars(text: string)
    | Child(elem: XmlElement)

  /** An element: namespace URI, local name, attributes in order, content in order. */
  datatype XmlElement = XmlElement(ns: string, name: string, attrs: seq<XmlAttr>, content: seq<XmlContent>)

  /**
   * `getElementText()`: the concatenated text of a text-only element; None
   * when a child element is met.
   */
  function ElementText(content: seq<XmlContent>): (r: Option<string>)
    ensures r.None? <==> exists i :: 0 <= i < |content| && content[i].Child?
  {
    if content == [] then Some("")
    else
      var rest := ElementText(content[1..]);
      assert forall i :: 1 <= i < |content| ==> content[i] == content[1..][i - 1];
      match content[0]
      case Child(_) => None
      case Chars(t) => if rest.None? then None else Some(t + rest.value)
  }

  /** The first piece of content `nextTag()` does not skip: a child, or text that is not blank. */
  function FirstTag(content: seq<XmlContent>): (r: Option<XmlContent>)
    ensures r.None? <==> forall i :: 0 <= i < |content| ==> content[i].Chars? && Text.IsBlank(content[i].text)
    ensures r.Some? ==> r.value in content && (r.value.Child? || !Text.IsBlank(r.value.text))
  {
    if content == [] then None
    else if content[0].Chars? && Text.IsBlank(content[0].text) then
      var r := FirstTag(content[1..]);
      assert forall i :: 1 <= i < |content| ==> content[i] == content[1..][i - 1];
      r
    else Some(content[0])
  }
}
