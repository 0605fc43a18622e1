/**
 * The small part of the browser's document model that the page script
 * touches: an element's class list and its attributes.
 */
module Dom {

  datatype Option<+T> = None | Some(value: T)

  /** An element of the page. Its class list is a set of tokens; attributes map names to values. */
  class Element {
    var classList: set<string>
    var attributes: map<string, string>

    constructor (classes: set<string>, attrs: map<string, string>)
      ensures classList == classes && attributes == attrs
    {
      classList := classes;
      attributes := attrs;
    }

    /** getAttribute: the attribute's value, or None (null) when the element has no such attribute. */
    function GetAttribute(name: string): (v: Option<string>)
      reads this
      ensures v.Some? <==> name in attributes
      ensures v.Some? ==> v.value == attributes[name]
    {
      if name in attributes then Some(attributes[name]) else None
    }
  }

  /**
   * DOMTokenList.toggle(token) without a force argument: removes the token
   * when present, adds it when absent, and answers whether it is now present.
   */
  function Toggle(tokens: set<string>, token: string): (r: (bool, set<string>))
    ensures r.0 <==> token !in tokens
    ensures r.0 <==> token in r.1
    ensures r.1 - {token} == tokens - {token}
  {
    if token in tokens then (false, tokens - {token}) else (true, tokens + {token})
  }

  /** Toggling the same token twice gives back the original class list. */
  lemma ToggleTwice(tokens: set<string>, token: string)
    ensures Toggle(Toggle(tokens, token).1, token).1 == tokens
    ensures Toggle(Toggle(tokens, token).1, token).0 == (token in tokens)
  {
  }
}
