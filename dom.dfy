/** Shared vocabulary of the page model: optional values (an attribute or an
    element lookup that may come back null), element identities and
    JavaScript's String(bool). */
module Dom {

  datatype Option<T> = None | Some(value: T)

  /** DOM elements are compared by reference; the model numbers them. */
  type ElementId = nat

  /** JavaScript `String(b)` for a boolean. */
  function BoolString(b: bool): string {
    if b then "true" else "false"
  }

  /** `el.getAttribute(name) === "true"`; an absent attribute reads as null. */
  predicate IsTrue(attr: Option<string>) {
    attr == Some("true")
  }

  /** Writing String(b) into an attribute and reading it back as `=== "true"` gives b. */
  lemma BoolStringRoundTrip(b: bool)
    ensures IsTrue(Some(BoolString(b))) == b
  {
  }
}
