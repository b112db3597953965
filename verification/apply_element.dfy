/** `elementalApplyStylesTo`: how one element's inline style and attributes
    change when a snapshot is pasted onto it. Every declaration it writes
    carries `!important`. */
module ApplyElement {
  import opened Options
  import opened JsString
  import opened Css

  /** An element as the applier sees it: tag name, attributes, inline style. */
  datatype ElementState = ElementState(tag: string, attrs: map<string, string>, style: Declaration)

  /** The six properties of the `propsToSet` loop, in its order. */
  const PropsToSet: seq<string> :=
    ["color", "font-family", "font-size", "font-weight", "font-style", "background-color"]

  /** The same six properties as a set. */
  const ListedProps: set<string> :=
    {"color", "font-family", "font-size", "font-weight", "font-style", "background-color"}

  /** The longhands of `text-decoration` the applier writes or clears. */
  const DecorationLonghands: set<string> :=
    {"text-decoration-line", "text-decoration-color", "text-decoration-style", "text-decoration-thickness"}

  /** The bottom-border longhands. */
  const BorderLonghands: set<string> :=
    {"border-bottom-style", "border-bottom-width", "border-bottom-color"}

  // ---- colour and font properties -------------------------------------

  /** The weight pasted: the snapshot's weight, or `400` when that is
      absent, one of the keywords `inherit`, `initial`, `auto`, or already the normal weight. */
  function WeightToApply(v: string): string
  {
    if Usable(v) && v != "normal" && v != "400" then v else "400"
  }

  /** The font style pasted: the snapshot's style, or `normal` when that is
      absent or one of the keywords `inherit`,
      `initial`, `auto`. */
  function FontStyleToApply(v: string): string
  {
    if Usable(v) then v else "normal"
  }

  /** One round of the `propsToSet` loop. */
  function SetListed(d: Declaration, prop: string, value: string): (r: Declaration)
    ensures Get(r, prop) == ListedOutcome(prop, value)
    ensures forall p :: p != prop ==> Get(r, p) == Get(d, p)
  {
    if Usable(value) then
      if prop == "font-weight" && (value == "normal" || value == "400") then SetProperty(d, prop, "400", true)
      else if prop == "font-style" && value == "normal" then SetProperty(d, prop, "normal", true)
      else SetProperty(d, prop, value, true)
    else
      var cleared := RemoveProperty(d, prop);
      if prop == "font-weight" then SetProperty(cleared, prop, "400", true)
      else if prop == "font-style" then SetProperty(cleared, prop, "normal", true)
      else cleared
  }

  /** The declaration the `propsToSet` loop leaves for `prop`: font weight
      and style are always written, with their defaults standing in for an
      unusable or default value; the other properties are written when the
      value is usable and cleared otherwise. */
  function ListedOutcome(prop: string, value: string): Option<Decl>
  {
    if prop == "font-weight" then Some(Decl(WeightToApply(value), true))
    else if prop == "font-style" then Some(Decl(FontStyleToApply(value), true))
    else if Usable(value) then Some(Decl(value, true))
    else None
  }

  /** The snapshot value the `propsToSet` loop writes to property `p`. */
  function ListedValue(s: Snapshot, p: string): string
  {
    match p
    case "color" => s.color
    case "font-family" => s.fontFamily
    case "font-size" => s.fontSize
    case "font-weight" => s.fontWeight
    case "font-style" => s.fontStyle
    case "background-color" => s.backgroundColor
    case _ => ""
  }

  /** The colour and font part of a pasted style. */
  predicate FontConforms(s: Snapshot, d: Declaration)
  {
    forall p :: p in ListedProps ==> Get(d, p) == ListedOutcome(p, ListedValue(s, p))
  }

  /** The `propsToSet` loop over the properties `props`, in order: each
      one ends at its policy outcome and no other property changes. */
  function SetListedAll(d: Declaration, s: Snapshot, props: seq<string>): (r: Declaration)
    ensures forall p :: p in props ==> Get(r, p) == ListedOutcome(p, ListedValue(s, p))
    ensures forall p :: p !in props ==> Get(r, p) == Get(d, p)
    decreases |props|
  {
    if |props| == 0 then d
    else SetListedAll(SetListed(d, props[0], ListedValue(s, props[0])), s, props[1..])
  }

  /** The `propsToSet` loop over its six properties, in source order. */
  function SetFontAndColour(d: Declaration, s: Snapshot): (r: Declaration)
    ensures FontConforms(s, r)
    ensures forall p :: p !in ListedProps ==> Get(r, p) == Get(d, p)
  {
    SetListedAll(d, s, PropsToSet)
  }

  // ---- text decoration --------------------------------------------------

  /** The snapshot's decoration is `none`, in any letter case. */
  predicate DecorationIsNone(s: Snapshot)
  {
    Truthy(s.textDecoration) && ToLower(s.textDecoration) == "none"
  }

  /** The snapshot's decoration is an underline (and not `none`). */
  predicate DecorationIsUnderline(s: Snapshot)
  {
    !DecorationIsNone(s) && Truthy(s.textDecoration) && Contains(ToLower(s.textDecoration), "underline")
  }

  /** The underline colour pasted: the snapshot's decoration colour, unless
      it is absent, equals the text colour ignoring case, or is transparent
      black; then the text colour, or `initial` when that is absent too. */
  function UnderlineColour(s: Snapshot): (c: string)
    ensures c != ""
    ensures c == s.textDecorationColor || c == s.color || c == "initial"
    ensures Truthy(s.color) ==> c == s.textDecorationColor || c == s.color
    ensures ToLower(c) == ToLower(s.color) ==> c == s.color
    ensures Contains(c, "rgba(0, 0, 0, 0)") ==> c == s.color
    ensures (&& Truthy(s.textDecorationColor)
             && ToLower(s.textDecorationColor) != ToLower(s.color)
             && !Contains(s.textDecorationColor, "rgba(0, 0, 0, 0)"))
            ==> c == s.textDecorationColor
  {
    if Truthy(s.textDecorationColor)
       && ToLower(s.textDecorationColor) != ToLower(s.color)
       && !Contains(s.textDecorationColor, "rgba(0, 0, 0, 0)")
    then s.textDecorationColor
    else if Truthy(s.color) then s.color
    else "initial"
  }

  /** The decoration properties a paste of `s` writes or clears. */
  function DecorationWritten(s: Snapshot): set<string>
  {
    if DecorationIsNone(s) || DecorationIsUnderline(s) then {"text-decoration"} + DecorationLonghands
    else {"text-decoration"}
  }

  /** The decoration part of a pasted style: `none` clears the longhands and
      writes the shorthand `none`; an underline clears the shorthand and
      writes a solid underline of automatic thickness in `UnderlineColour`;
      another decoration is written verbatim as the shorthand; an absent one
      writes `none`. */
  predicate DecorationConforms(s: Snapshot, d: Declaration)
  {
    && (DecorationIsNone(s) ==>
          && Get(d, "text-decoration") == Some(Decl("none", true))
          && (forall p :: p in DecorationLonghands ==> Get(d, p) == None))
    && (DecorationIsUnderline(s) ==>
          && Get(d, "text-decoration") == None
          && Get(d, "text-decoration-line") == Some(Decl("underline", true))
          && Get(d, "text-decoration-color") == Some(Decl(UnderlineColour(s), true))
          && Get(d, "text-decoration-style") == Some(Decl("solid", true))
          && Get(d, "text-decoration-thickness") == Some(Decl("auto", true)))
    && (!DecorationIsNone(s) && !DecorationIsUnderline(s) && Truthy(s.textDecoration) ==>
          Get(d, "text-decoration") == Some(Decl(s.textDecoration, true)))
    && (!Truthy(s.textDecoration) ==>
          Get(d, "text-decoration") == Some(Decl("none", true)))
  }

  /** The `text-decoration` branch of `elementalApplyStylesTo`. */
  function SetDecoration(d: Declaration, s: Snapshot): (r: Declaration)
    ensures DecorationConforms(s, r)
    ensures forall p :: p !in DecorationWritten(s) ==> Get(r, p) == Get(d, p)
  {
    if DecorationIsNone(s) then
      var d1 := RemoveProperty(d, "text-decoration-line");
      var d2 := RemoveProperty(d1, "text-decoration-color");
      var d3 := RemoveProperty(d2, "text-decoration-style");
      var d4 := RemoveProperty(d3, "text-decoration-thickness");
      SetProperty(d4, "text-decoration", "none", true)
    else if DecorationIsUnderline(s) then
      var d1 := RemoveProperty(d, "text-decoration");
      var d2 := SetProperty(d1, "text-decoration-line", "underline", true);
      var d3 := SetProperty(d2, "text-decoration-color", UnderlineColour(s), true);
      var d4 := SetProperty(d3, "text-decoration-style", "solid", true);
      SetProperty(d4, "text-decoration-thickness", "auto", true)
    else if Truthy(s.textDecoration) then
      SetProperty(d, "text-decoration", s.textDecoration, true)
    else
      SetProperty(d, "text-decoration", "none", true)
  }

  // ---- border-bottom ----------------------------------------------------

  /** The snapshot shows no bottom border. */
  predicate NoBorderBottom(s: Snapshot)
  {
    !Truthy(s.borderBottomStyle) || ToLower(s.borderBottomStyle) == "none"
  }

  /** The border properties a paste of `s` writes. */
  function BorderWritten(s: Snapshot): set<string>
  {
    if NoBorderBottom(s) then {"border-bottom"} else BorderLonghands
  }

  /** The border part of a pasted style: `border-bottom: none` when the
      snapshot shows no bottom border, else its three longhands copied (an
      empty one clears its property). */
  predicate BorderConforms(s: Snapshot, d: Declaration)
  {
    && (NoBorderBottom(s) ==> Get(d, "border-bottom") == Some(Decl("none", true)))
    && (!NoBorderBottom(s) ==>
          && Get(d, "border-bottom-style") == Some(Decl(s.borderBottomStyle, true))
          && Get(d, "border-bottom-width") == (if Truthy(s.borderBottomWidth) then Some(Decl(s.borderBottomWidth, true)) else None)
          && Get(d, "border-bottom-color") == (if Truthy(s.borderBottomColor) then Some(Decl(s.borderBottomColor, true)) else None))
  }

  /** The `border-bottom` branch of `elementalApplyStylesTo`. */
  function SetBorderBottom(d: Declaration, s: Snapshot): (r: Declaration)
    ensures BorderConforms(s, r)
    ensures forall p :: p !in BorderWritten(s) ==> Get(r, p) == Get(d, p)
  {
    if NoBorderBottom(s) then SetProperty(d, "border-bottom", "none", true)
    else
      var d1 := SetProperty(d, "border-bottom-style", s.borderBottomStyle, true);
      var d2 := SetProperty(d1, "border-bottom-width", s.borderBottomWidth, true);
      SetProperty(d2, "border-bottom-color", s.borderBottomColor, true)
  }

  // ---- the whole element ------------------------------------------------

  /** Every property a paste of `s` writes or clears. */
  function Written(s: Snapshot): set<string>
  {
    ListedProps + DecorationWritten(s) + BorderWritten(s)
  }

  /** What a paste of `s` promises about the inline style it leaves,
      whatever the element's style was before. */
  predicate Conforms(s: Snapshot, d: Declaration)
  {
    FontConforms(s, d) && DecorationConforms(s, d) && BorderConforms(s, d)
  }

  /** The `FONT color` attribute is dropped when the snapshot has a colour. */
  predicate DropsFontColour(s: Snapshot, e: ElementState)
  {
    e.tag == "FONT" && Truthy(s.color) && "color" in e.attrs
  }

  /** `elementalApplyStylesTo`: the pasted inline style conforms to the
      snapshot, every property the paste does not write keeps its old
      declaration, and the only attribute change is dropping a legacy
      `<font color>`. */
  function ElementalApply(s: Snapshot, e: ElementState): (r: ElementState)
    ensures r.tag == e.tag
    ensures Conforms(s, r.style)
    ensures forall p :: p !in Written(s) ==> Get(r.style, p) == Get(e.style, p)
    ensures DropsFontColour(s, e) ==> r.attrs == e.attrs - {"color"}
    ensures !DropsFontColour(s, e) ==> r.attrs == e.attrs
  {
    var d1 := SetFontAndColour(e.style, s);
    var d2 := SetDecoration(d1, s);
    var d3 := SetBorderBottom(d2, s);
    StagesFrame(s, e.style, d1, d2, d3);
    FontConformsFrame(s, d1, d3);
    DecorationConformsFrame(s, d2, d3);
    var attrs := if DropsFontColour(s, e) then e.attrs - {"color"} else e.attrs;
    ElementState(e.tag, attrs, d3)
  }

  /** The three stages write disjoint sets of properties. */
  lemma WrittenDisjoint(s: Snapshot)
    ensures ListedProps !! DecorationWritten(s)
    ensures ListedProps !! BorderWritten(s)
    ensures DecorationWritten(s) !! BorderWritten(s)
  {
  }

  /** Each stage changes only what it writes, so a later stage keeps what an
      earlier one wrote, and the three together keep everything else. */
  lemma StagesFrame(s: Snapshot, d0: Declaration, d1: Declaration, d2: Declaration, d3: Declaration)
    requires forall p :: p !in ListedProps ==> Get(d1, p) == Get(d0, p)
    requires forall p :: p !in DecorationWritten(s) ==> Get(d2, p) == Get(d1, p)
    requires forall p :: p !in BorderWritten(s) ==> Get(d3, p) == Get(d2, p)
    ensures forall p :: p in ListedProps ==> Get(d3, p) == Get(d1, p)
    ensures forall p :: p in DecorationWritten(s) ==> Get(d3, p) == Get(d2, p)
    ensures forall p :: p !in Written(s) ==> Get(d3, p) == Get(d0, p)
  {
    WrittenDisjoint(s);
  }

  lemma FontConformsFrame(s: Snapshot, a: Declaration, b: Declaration)
    requires FontConforms(s, a)
    requires forall p :: p in ListedProps ==> Get(b, p) == Get(a, p)
    ensures FontConforms(s, b)
  {
  }

  lemma DecorationConformsFrame(s: Snapshot, a: Declaration, b: Declaration)
    requires DecorationConforms(s, a)
    requires forall p :: p in DecorationWritten(s) ==> Get(b, p) == Get(a, p)
    ensures DecorationConforms(s, b)
  {
  }

  /** A conforming style is pinned down on every property the paste writes:
      two conforming styles that agree elsewhere are equal. */
  lemma ConformsDetermines(s: Snapshot, a: Declaration, b: Declaration)
    requires Conforms(s, a) && Conforms(s, b)
    requires forall p :: p !in Written(s) ==> Get(a, p) == Get(b, p)
    ensures a == b
  {
    FontDetermines(s, a, b);
    DecorationDetermines(s, a, b);
    BorderDetermines(s, a, b);
    SameDeclarations(a, b);
  }

  lemma FontDetermines(s: Snapshot, a: Declaration, b: Declaration)
    requires FontConforms(s, a) && FontConforms(s, b)
    ensures forall p :: p in ListedProps ==> Get(a, p) == Get(b, p)
  {
  }

  lemma DecorationDetermines(s: Snapshot, a: Declaration, b: Declaration)
    requires DecorationConforms(s, a) && DecorationConforms(s, b)
    ensures forall p :: p in DecorationWritten(s) ==> Get(a, p) == Get(b, p)
  {
  }

  lemma BorderDetermines(s: Snapshot, a: Declaration, b: Declaration)
    requires BorderConforms(s, a) && BorderConforms(s, b)
    ensures forall p :: p in BorderWritten(s) ==> Get(a, p) == Get(b, p)
  {
  }

  /** Colour and font on paste, for any inline style the colour and font
      part of which conforms to `s` (as every pasted style does): weight and
      style are always written with `!important`, falling back to `400` and
      `normal`; colour, family, size and background are written verbatim with
      `!important` when usable and cleared otherwise. */
  lemma FontAndColourPolicy(s: Snapshot, d: Declaration)
    requires FontConforms(s, d)
    ensures
      && Get(d, "font-weight").Some? && Get(d, "font-weight").value.important
      && (Get(d, "font-weight").value.value == "400" <==>
            !Usable(s.fontWeight) || s.fontWeight == "normal" || s.fontWeight == "400")
      && (Get(d, "font-weight").value.value != "400" ==> Get(d, "font-weight").value.value == s.fontWeight)
      && Get(d, "font-style").Some? && Get(d, "font-style").value.important
      && (Get(d, "font-style").value.value == (if Usable(s.fontStyle) then s.fontStyle else "normal"))
      && (Usable(s.color) ==> Get(d, "color") == Some(Decl(s.color, true)))
      && (!Usable(s.color) ==> Get(d, "color") == None)
      && (Usable(s.fontFamily) ==> Get(d, "font-family") == Some(Decl(s.fontFamily, true)))
      && (!Usable(s.fontFamily) ==> Get(d, "font-family") == None)
      && (Usable(s.fontSize) ==> Get(d, "font-size") == Some(Decl(s.fontSize, true)))
      && (!Usable(s.fontSize) ==> Get(d, "font-size") == None)
      && (Usable(s.backgroundColor) ==> Get(d, "background-color") == Some(Decl(s.backgroundColor, true)))
      && (!Usable(s.backgroundColor) ==> Get(d, "background-color") == None)
  {
    assert Get(d, "font-weight") == ListedOutcome("font-weight", s.fontWeight);
    assert Get(d, "font-style") == ListedOutcome("font-style", s.fontStyle);
    assert Get(d, "color") == ListedOutcome("color", s.color);
    assert Get(d, "font-family") == ListedOutcome("font-family", s.fontFamily);
    assert Get(d, "font-size") == ListedOutcome("font-size", s.fontSize);
    assert Get(d, "background-color") == ListedOutcome("background-color", s.backgroundColor);
  }

  /** Text decoration on paste, stated on the snapshot's own string: `none`
      in any case clears the longhands and writes the shorthand `none`; a
      value containing `underline` clears the shorthand and writes a solid
      underline of automatic thickness; any other value is written verbatim;
      no value writes `none`. */
  lemma DecorationPolicy(s: Snapshot, e: ElementState)
    ensures var d := ElementalApply(s, e).style;
      var td := s.textDecoration;
      && (ToLower(td) == "none" ==>
            && Get(d, "text-decoration") == Some(Decl("none", true))
            && Get(d, "text-decoration-line") == None
            && Get(d, "text-decoration-color") == None
            && Get(d, "text-decoration-style") == None
            && Get(d, "text-decoration-thickness") == None)
      && (ToLower(td) != "none" && Contains(ToLower(td), "underline") ==>
            && Get(d, "text-decoration") == None
            && Get(d, "text-decoration-line") == Some(Decl("underline", true))
            && Get(d, "text-decoration-color") == Some(Decl(UnderlineColour(s), true))
            && Get(d, "text-decoration-style") == Some(Decl("solid", true))
            && Get(d, "text-decoration-thickness") == Some(Decl("auto", true)))
      && (td != "" && ToLower(td) != "none" && !Contains(ToLower(td), "underline") ==>
            Get(d, "text-decoration") == Some(Decl(td, true)))
      && (td == "" ==> Get(d, "text-decoration") == Some(Decl("none", true)))
  {
    var d := ElementalApply(s, e).style;
    assert DecorationConforms(s, d);
    if s.textDecoration == "" {
      assert !Contains(ToLower(s.textDecoration), "underline");
    }
  }

  /** The bottom border on paste, stated on the snapshot's own string: an
      absent style or `none` in any case writes `border-bottom: none`, any
      other style copies style, width and colour with `!important`. */
  lemma BorderPolicy(s: Snapshot, e: ElementState)
    ensures var d := ElementalApply(s, e).style;
      var bs := s.borderBottomStyle;
      && (bs == "" || ToLower(bs) == "none" ==> Get(d, "border-bottom") == Some(Decl("none", true)))
      && (bs != "" && ToLower(bs) != "none" ==>
            && Get(d, "border-bottom-style") == Some(Decl(bs, true))
            && (s.borderBottomWidth != "" ==> Get(d, "border-bottom-width") == Some(Decl(s.borderBottomWidth, true)))
            && (s.borderBottomColor != "" ==> Get(d, "border-bottom-color") == Some(Decl(s.borderBottomColor, true))))
  {
    assert BorderConforms(s, ElementalApply(s, e).style);
  }

  /** Pasting the same snapshot twice leaves an element as pasting it once. */
  lemma ApplyIdempotent(s: Snapshot, e: ElementState)
    ensures ElementalApply(s, ElementalApply(s, e)) == ElementalApply(s, e)
  {
    var once := ElementalApply(s, e);
    var twice := ElementalApply(s, once);
    ConformsDetermines(s, twice.style, once.style);
  }
}
