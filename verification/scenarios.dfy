/** Worked cases of copying and pasting a format, each stated on concrete
    computed styles and inline styles. */
module Scenarios {
  import opened Options
  import opened JsString
  import opened Css
  import opened ComposeGate
  import opened Extract
  import opened ApplyElement
  import opened ApplySelection

  /** A focused message body recognised by its English label. */
  const Body: Focus := Focus(true, Some("Message Body"), {}, None)

  /** Black 13px Arial text in the normal weight, undecorated, with no
      bottom border and no background of its own. */
  const PlainComputed: ComputedStyle := ComputedStyle(
    "rgb(0, 0, 0)", "rgba(0, 0, 0, 0)", "Arial", "13px", "400", "normal",
    "none solid rgb(0, 0, 0)", "rgb(0, 0, 0)", "none", "0px", "rgb(0, 0, 0)")

  /** A `<b>` in the message body computing weight `700`. */
  const Bold: Ancestor := Ancestor("B", true, PlainComputed.(fontWeight := "700"))

  /** Copying plain text inside a `<b>` in the message body: the weight
      comes from the bold parent, the transparent background becomes white,
      and the decoration is reduced to `none`. */
  lemma CopyInsideBold()
    ensures var el := Element("SPAN", PlainComputed, [Bold]);
      var r := GetSelectedStyle(Some(Body), None, Selection(1, false, Some(el), None));
      && r.Some?
      && r.value.fontWeight == "700"
      && r.value.backgroundColor == White
      && r.value.textDecoration == "none"
  {
    assert Visited([Bold]) == [Bold];
    BoldParentWalk();
    PlainDecorationIsNone();
  }

  /** The walk over a single bold parent takes its weight and keeps the
      plain decoration. */
  lemma BoldParentWalk()
    ensures PromoteAll(Initial(PlainComputed), [Bold]).fontWeight == "700"
    ensures PromoteAll(Initial(PlainComputed), [Bold]).textDecoration == PlainComputed.textDecoration
  {
    assert [Bold][..0] == [];
    assert PromoteAll(Initial(PlainComputed), [Bold]) == Promote(Initial(PlainComputed), Bold);
  }

  /** `none solid rgb(0, 0, 0)` has `none` as its first word. */
  lemma PlainDecorationIsNone()
    ensures HasWord(ToLower(PlainComputed.textDecoration), "none", ' ')
  {
    var td := PlainComputed.textDecoration;
    ToLowerOfLower(td);
    assert td[0..4] == "none" && td[4] == ' ';
    assert DelimitedAt(td, "none", ' ', 0);
  }

  /** The same copy with no focus on the message body yields nothing. */
  lemma CopyOutsideBody()
    ensures var el := Element("SPAN", PlainComputed, []);
      GetSelectedStyle(Some(Body.(contentEditable := false)), None, Selection(1, false, Some(el), None)).None?
  {
  }

  /** An underlined snapshot whose decoration colour equals its text colour. */
  const Underlined: Snapshot := Snapshot(
    "rgb(0, 0, 0)", "rgb(255, 255, 255)", "Arial", "13px", "400", "normal",
    "underline solid rgb(0, 0, 0)", "rgb(0, 0, 0)", "none", "0px", "rgb(0, 0, 0)")

  /** Pasting it onto an element with an inline `text-decoration: none`
      removes that shorthand and writes a solid underline in the text colour,
      and the bottom border is set to `none`. */
  lemma PasteUnderline()
    ensures var e := ElementState("SPAN", map[], map["text-decoration" := Decl("none", false)]);
      var d := ElementalApply(Underlined, e).style;
      && Get(d, "text-decoration") == None
      && Get(d, "text-decoration-line") == Some(Decl("underline", true))
      && Get(d, "text-decoration-style") == Some(Decl("solid", true))
      && Get(d, "text-decoration-color") == Some(Decl("rgb(0, 0, 0)", true))
      && Get(d, "border-bottom") == Some(Decl("none", true))
      && Get(d, "font-weight") == Some(Decl("400", true))
  {
    var e := ElementState("SPAN", map[], map["text-decoration" := Decl("none", false)]);
    UnderlinedIsUnderline();
    DecorationPolicy(Underlined, e);
    FontAndColourPolicy(Underlined, ElementalApply(Underlined, e).style);
    BorderPolicy(Underlined, e);
  }

  /** The underlined snapshot's decoration is an underline, not `none`,
      and it has no bottom border. */
  lemma UnderlinedIsUnderline()
    ensures ToLower(Underlined.textDecoration) != "none"
    ensures Contains(ToLower(Underlined.textDecoration), "underline")
    ensures ToLower(Underlined.borderBottomStyle) == "none"
  {
    var td := Underlined.textDecoration;
    ToLowerOfLower(td);
    assert OccursAt(td, "underline", 0);
    ToLowerOfLower(Underlined.borderBottomStyle);
  }

  /** The snapshot copied from plain text: its decoration reads `none`. */
  const Plain: Snapshot := Underlined.(textDecoration := "none")

  /** Pasting it onto text a previous paste underlined clears the
      underline longhands and writes `text-decoration: none`. */
  lemma PasteNoneOverUnderline()
    ensures var e := ElementState("SPAN", map[MarkerAttribute := "true"],
                                  map["text-decoration-line" := Decl("underline", true),
                                      "text-decoration-style" := Decl("solid", true)]);
      var r := ElementalApply(Plain, e);
      && Get(r.style, "text-decoration") == Some(Decl("none", true))
      && Get(r.style, "text-decoration-line") == None
      && Get(r.style, "text-decoration-style") == None
      && r.attrs == e.attrs
  {
    var e := ElementState("SPAN", map[MarkerAttribute := "true"],
                          map["text-decoration-line" := Decl("underline", true),
                              "text-decoration-style" := Decl("solid", true)]);
    assert Plain.textDecoration == "none";
    ToLowerOfLower(Plain.textDecoration);
    assert !DropsFontColour(Plain, e);
    DecorationPolicy(Plain, e);
  }
}
