/** Style data the page functions exchange: the browser's computed style of
    an element, the snapshot saved by "copy format", and an element's inline
    style declaration. */
module Css {
  import opened Options

  /** The computed (`getComputedStyle`) properties the extension reads. */
  datatype ComputedStyle = ComputedStyle(
    color: string,
    backgroundColor: string,
    fontFamily: string,
    fontSize: string,
    fontWeight: string,
    fontStyle: string,
    textDecoration: string,
    textDecorationColor: string,
    borderBottomStyle: string,
    borderBottomWidth: string,
    borderBottomColor: string)

  /** The eleven-field style record "copy format" produces and "paste
      format" reads. It travels through extension storage as JSON, so every
      field is a string; the empty string is JavaScript's falsy value. */
  datatype Snapshot = Snapshot(
    color: string,
    backgroundColor: string,
    fontFamily: string,
    fontSize: string,
    fontWeight: string,
    fontStyle: string,
    textDecoration: string,
    textDecorationColor: string,
    borderBottomStyle: string,
    borderBottomWidth: string,
    borderBottomColor: string)

  /** JavaScript truthiness of a string. */
  predicate Truthy(v: string)
  {
    v != ""
  }

  /** A value the applier writes rather than clears: present and not one of
      the keywords `inherit`, `initial`, `auto`. */
  predicate Usable(v: string)
  {
    Truthy(v) && v != "inherit" && v != "initial" && v != "auto"
  }

  /** One inline declaration: its value and whether it has `!important`. */
  datatype Decl = Decl(value: string, important: bool)

  /** An element's inline style, from property name to declaration. */
  type Declaration = map<string, Decl>

  /** The declaration of `prop`, if the inline style has one. */
  function Get(d: Declaration, prop: string): Option<Decl>
  {
    if prop in d then Some(d[prop]) else None
  }

  /** Two inline styles with the same declaration for every property are
      the same style. */
  lemma SameDeclarations(a: Declaration, b: Declaration)
    requires forall p :: Get(a, p) == Get(b, p)
    ensures a == b
  {
    assert forall p :: p in a <==> Get(a, p).Some?;
    assert a.Keys == b.Keys;
  }

  /** `CSSStyleDeclaration.setProperty`: an empty value removes the
      property, any other value replaces its declaration; no other property
      changes. */
  function SetProperty(d: Declaration, prop: string, value: string, important: bool): (r: Declaration)
    ensures value == "" ==> Get(r, prop) == None
    ensures value != "" ==> Get(r, prop) == Some(Decl(value, important))
    ensures forall p :: p != prop ==> Get(r, p) == Get(d, p)
  {
    if value == "" then d - {prop} else d[prop := Decl(value, important)]
  }

  /** `CSSStyleDeclaration.removeProperty`: no other property changes. */
  function RemoveProperty(d: Declaration, prop: string): (r: Declaration)
    ensures Get(r, prop) == None
    ensures forall p :: p != prop ==> Get(r, p) == Get(d, p)
  {
    d - {prop}
  }
}
