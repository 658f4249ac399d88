/**
 * Well-nested markup as the two tag scanners meet it: text, then elements
 * each followed by text. An element is either self-closing, `<name attrs/>`,
 * or paired, `<name attrs>body</name>`.
 */
module Markup {

  datatype Element =
    | SelfClosed(name: string, attrs: string)
    | Paired(name: string, attrs: string, body: Forest)

  /** An element and the text that follows it. */
  datatype Item = Item(element: Element, trail: string)

  /** The text before the first element, then the elements in order. */
  datatype Forest = Forest(lead: string, items: seq<Item>)

  /** Text that holds no angle bracket, so neither scanner finds a match in it. */
  predicate NoAngle(s: string)
  {
    '<' !in s && '>' !in s
  }

  /**
   * Every text is free of angle brackets, every name passes `nameOk` and
   * every attribute text passes `attrsOk` (each scanner has its own idea of
   * where a name stops).
   */
  predicate FormedForest(f: Forest, nameOk: string -> bool, attrsOk: string -> bool)
    decreases f, 2
  {
    NoAngle(f.lead) && FormedItems(f.items, nameOk, attrsOk)
  }

  predicate FormedItems(items: seq<Item>, nameOk: string -> bool, attrsOk: string -> bool)
    decreases items, 1
  {
    items == [] ||
      (FormedElement(items[0].element, nameOk, attrsOk) && NoAngle(items[0].trail)
       && FormedItems(items[1..], nameOk, attrsOk))
  }

  predicate FormedElement(e: Element, nameOk: string -> bool, attrsOk: string -> bool)
    decreases e, 0
  {
    nameOk(e.name) && attrsOk(e.attrs) && NoAngle(e.attrs)
    && (e.Paired? ==> FormedForest(e.body, nameOk, attrsOk))
  }

  /** The markup written out. */
  function Html(f: Forest): string
    decreases f, 2
  {
    f.lead + ItemsHtml(f.items)
  }

  function ItemsHtml(items: seq<Item>): string
    decreases items, 1
  {
    if items == [] then "" else ElementHtml(items[0].element) + (items[0].trail + ItemsHtml(items[1..]))
  }

  function ElementHtml(e: Element): string
    decreases e, 0
  {
    match e
    case SelfClosed(name, attrs) => "<" + name + (attrs + "/>")
    case Paired(name, attrs, body) => "<" + name + (attrs + (">" + (Html(body) + ("</" + name + ">"))))
  }
}
