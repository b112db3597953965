/** "Copy format": the snapshot `getSelectedStyleFromPage` builds from the
    element at the start of the selection and up to three of its ancestors. */
module Extract {
  import opened Options
  import opened JsString
  import opened Css
  import opened ComposeGate

  /** A parent element on the walk up: its tag name, whether it lies inside
      the editable region (it or an ancestor matches
      `[g_editable="true"], .editable, .Am`), and its computed style. */
  datatype Ancestor = Ancestor(tag: string, insideEditable: bool, computed: ComputedStyle)

  /** An element whose computed style can be read, with its chain of parent
      elements, nearest first, up to the document root. */
  datatype Element = Element(tag: string, computed: ComputedStyle, parents: seq<Ancestor>)

  /** What the extractor learns from `window.getSelection()`: the number of
      ranges, whether the selection is collapsed, and the styleable element
      (if any) resolved from the range's start container and from its common
      ancestor container. */
  datatype Selection = Selection(
    rangeCount: nat,
    collapsed: bool,
    startElement: Option<Element>,
    commonElement: Option<Element>)

  /** The four values the ancestor walk may promote. */
  datatype Emphasis = Emphasis(
    fontWeight: string,
    fontStyle: string,
    textDecoration: string,
    textDecorationColor: string)

  /** The walk inspects at most this many ancestors. */
  const MaxAncestorLevels: nat := 3

  /** The element whose style is copied: the start element, else (for a
      non-collapsed selection) the common-ancestor element, else the focused
      editable element when it has a style object (`active`). */
  function ChooseElement(sel: Selection, active: Option<Element>): (r: Option<Element>)
    ensures r.None? <==> sel.startElement.None? && (sel.collapsed || sel.commonElement.None?) && active.None?
    ensures sel.startElement.Some? ==> r == sel.startElement
    ensures sel.startElement.None? && !sel.collapsed && sel.commonElement.Some? ==> r == sel.commonElement
    ensures sel.startElement.None? && (sel.collapsed || sel.commonElement.None?) ==> r == active
  {
    if sel.startElement.Some? then sel.startElement
    else if !sel.collapsed && sel.commonElement.Some? then sel.commonElement
    else active
  }

  /** The ancestors the walk visits: the parents, nearest first, while they
      lie inside the editable region, at most `n` of them. */
  function VisitedUpTo(parents: seq<Ancestor>, n: nat): (v: seq<Ancestor>)
    ensures |v| <= n && |v| <= |parents| && v == parents[..|v|]
    ensures forall k :: 0 <= k < |v| ==> v[k].insideEditable
    ensures |v| < n && |v| < |parents| ==> !parents[|v|].insideEditable
  {
    if n == 0 || |parents| == 0 || !parents[0].insideEditable then []
    else [parents[0]] + VisitedUpTo(parents[1..], n - 1)
  }

  /** The ancestors `getSelectedStyleFromPage` visits. */
  function Visited(parents: seq<Ancestor>): seq<Ancestor>
  {
    VisitedUpTo(parents, MaxAncestorLevels)
  }

  predicate IsDefaultWeight(w: string)
  {
    w == "400" || w == "normal"
  }

  /** One step of the walk: promote bold, italic and underline from the
      parent `p` when the current value looks like the default. */
  function Promote(e: Emphasis, p: Ancestor): Emphasis
  {
    var pw := p.computed.fontWeight;
    var ps := p.computed.fontStyle;
    var fontWeight :=
      if IsDefaultWeight(e.fontWeight) && (p.tag == "B" || pw == "700" || pw == "bold") && !IsDefaultWeight(pw)
      then pw else e.fontWeight;
    var fontStyle :=
      if (e.fontStyle == "normal" || e.fontStyle == "inherit" || e.fontStyle == "initial")
         && (p.tag == "I" || p.tag == "EM" || ps == "italic") && ps != "normal"
      then ps else e.fontStyle;
    var current := ToLower(e.textDecoration);
    var currentIsNoneOrNotUnderline := Contains(current, "none") || !Contains(current, "underline");
    var parentIsUOrUnderlined := p.tag == "U" || Contains(ToLower(p.computed.textDecoration), "underline");
    if currentIsNoneOrNotUnderline && parentIsUOrUnderlined then
      Emphasis(fontWeight, fontStyle, p.computed.textDecoration, p.computed.textDecorationColor)
    else
      Emphasis(fontWeight, fontStyle, e.textDecoration, e.textDecorationColor)
  }

  /** One step of the walk: each value is either kept or read from `p`,
      the decoration and its colour move together, and a bold, italic or
      underlined parent always leaves the step bold, italic or underlined. */
  lemma PromoteStep(e: Emphasis, p: Ancestor)
    ensures var r := Promote(e, p);
      && (r.fontWeight == e.fontWeight || r.fontWeight == p.computed.fontWeight)
      && (r.fontStyle == e.fontStyle || r.fontStyle == p.computed.fontStyle)
      && (|| (r.textDecoration, r.textDecorationColor) == (e.textDecoration, e.textDecorationColor)
          || (r.textDecoration, r.textDecorationColor) == (p.computed.textDecoration, p.computed.textDecorationColor))
      && (Bolds(p) ==> !IsDefaultWeight(r.fontWeight))
      && (Italicizes(p) ==> !IsPlainStyle(r.fontStyle))
      && (PlainUnderline(p.computed.textDecoration) ==> PlainUnderline(r.textDecoration))
      && (r.fontWeight != e.fontWeight ==> IsDefaultWeight(e.fontWeight) && Bolds(p))
      && (r.fontStyle != e.fontStyle ==> IsPlainStyle(e.fontStyle) && ItalicTrigger(p))
      && ((r.textDecoration, r.textDecorationColor) != (e.textDecoration, e.textDecorationColor) ==>
            !PlainUnderline(e.textDecoration) && Underlines(p))
      && (!PlainUnderline(e.textDecoration) && Underlines(p) ==>
            (r.textDecoration, r.textDecorationColor) == (p.computed.textDecoration, p.computed.textDecorationColor))
  {
  }

  /** The emphasis after promoting from each of `v`, in order. */
  function PromoteAll(e: Emphasis, v: seq<Ancestor>): Emphasis
    decreases |v|
  {
    if |v| == 0 then e else Promote(PromoteAll(e, v[..|v| - 1]), v[|v| - 1])
  }

  /** The emphasis read from the chosen element itself. */
  function Initial(c: ComputedStyle): Emphasis
  {
    Emphasis(c.fontWeight, c.fontStyle, c.textDecoration, c.textDecorationColor)
  }

  /** The ancestor loop of `getSelectedStyleFromPage`: it stops at the third
      ancestor or at the first parent outside the editable region, and
      promotes from each ancestor it reaches. */
  method WalkAncestors(el: Element) returns (e: Emphasis)
    ensures e == PromoteAll(Initial(el.computed), Visited(el.parents))
  {
    var parents := el.parents;
    var start := Initial(el.computed);
    e := start;
    var i := 0;
    while i < MaxAncestorLevels
      invariant i <= MaxAncestorLevels && i <= |parents|
      invariant AllInside(parents[..i])
      invariant e == PromoteAll(start, parents[..i])
    {
      if i >= |parents| || !parents[i].insideEditable {
        break;
      }
      assert parents[..i + 1] == parents[..i] + [parents[i]];
      e := PromoteNext(start, parents, i, e);
      i := i + 1;
    }
    VisitedIsMaximal(parents, i);
  }

  /** One round of the walk: the emphasis so far, promoted from the next
      ancestor, is the promotion over one more ancestor of the chain. */
  method PromoteNext(start: Emphasis, v: seq<Ancestor>, i: nat, e: Emphasis) returns (r: Emphasis)
    requires i < |v| && e == PromoteAll(start, v[..i])
    ensures r == PromoteAll(start, v[..i + 1])
  {
    assert v[..i + 1][..i] == v[..i];
    r := Promote(e, v[i]);
  }

  /** `Visited` is the only prefix of at most three ancestors that are all
      inside the editable region and that stops exactly where the walk does. */
  lemma VisitedIsMaximal(parents: seq<Ancestor>, i: nat)
    requires i <= MaxAncestorLevels && i <= |parents|
    requires AllInside(parents[..i])
    requires i < MaxAncestorLevels && i < |parents| ==> !parents[i].insideEditable
    ensures Visited(parents) == parents[..i]
  {
    assert forall k :: 0 <= k < i ==> parents[..i][k] == parents[k];
  }

  /** Every ancestor of `v` lies inside the editable region. */
  predicate AllInside(v: seq<Ancestor>)
  {
    forall k :: 0 <= k < |v| ==> v[k].insideEditable
  }

  /** The parent `p` makes the walk promote a bold weight. */
  predicate Bolds(p: Ancestor)
  {
    var pw := p.computed.fontWeight;
    (p.tag == "B" || pw == "700" || pw == "bold") && !IsDefaultWeight(pw)
  }

  /** Font weight over the whole walk: a non-default weight is never
      replaced; a replaced weight is a non-default weight read from one of
      the visited ancestors; and a default weight is replaced as soon as some
      visited ancestor is bold. */
  lemma {:induction false} WeightPromotion(e: Emphasis, v: seq<Ancestor>)
    ensures !IsDefaultWeight(e.fontWeight) ==> PromoteAll(e, v).fontWeight == e.fontWeight
    ensures PromoteAll(e, v).fontWeight != e.fontWeight ==>
      && !IsDefaultWeight(PromoteAll(e, v).fontWeight)
      && exists k :: 0 <= k < |v| && v[k].computed.fontWeight == PromoteAll(e, v).fontWeight
    ensures (exists k :: 0 <= k < |v| && Bolds(v[k])) ==> !IsDefaultWeight(PromoteAll(e, v).fontWeight)
    decreases |v|
  {
    if |v| > 0 {
      var front := v[..|v| - 1];
      WeightPromotion(e, front);
      var mid := PromoteAll(e, front);
      if PromoteAll(e, v).fontWeight != e.fontWeight && mid.fontWeight == e.fontWeight {
        assert v[|v| - 1].computed.fontWeight == PromoteAll(e, v).fontWeight;
      } else if PromoteAll(e, v).fontWeight != e.fontWeight {
        var k :| 0 <= k < |front| && front[k].computed.fontWeight == mid.fontWeight;
        assert v[k] == front[k];
      }
      if exists k :: 0 <= k < |v| && Bolds(v[k]) {
        var k :| 0 <= k < |v| && Bolds(v[k]);
        if k < |v| - 1 {
          assert Bolds(front[k]);
        }
      }
    }
  }

  predicate IsPlainStyle(s: string)
  {
    s == "normal" || s == "inherit" || s == "initial"
  }

  /** The parent `p` makes the walk promote an italic style: it is an `I`
      or `EM` element or computes `italic`, and its style is not plain. */
  predicate Italicizes(p: Ancestor)
  {
    var ps := p.computed.fontStyle;
    (p.tag == "I" || p.tag == "EM" || ps == "italic") && !IsPlainStyle(ps)
  }

  /** Font style over the whole walk: it changes only from `normal`,
      `inherit` or `initial`, and only to a value other than `normal` that
      one of the visited ancestors computes; a style that is not plain is
      never replaced; and a visited italic ancestor always leaves a style
      that is not plain. */
  lemma {:induction false} StylePromotion(e: Emphasis, v: seq<Ancestor>)
    ensures PromoteAll(e, v).fontStyle != e.fontStyle ==>
      && IsPlainStyle(e.fontStyle)
      && PromoteAll(e, v).fontStyle != "normal"
      && exists k :: 0 <= k < |v| && v[k].computed.fontStyle == PromoteAll(e, v).fontStyle
    ensures !IsPlainStyle(e.fontStyle) ==> PromoteAll(e, v).fontStyle == e.fontStyle
    ensures (exists k :: 0 <= k < |v| && Italicizes(v[k])) ==> !IsPlainStyle(PromoteAll(e, v).fontStyle)
    decreases |v|
  {
    if |v| > 0 {
      var front := v[..|v| - 1];
      StylePromotion(e, front);
      var mid := PromoteAll(e, front);
      if PromoteAll(e, v).fontStyle != mid.fontStyle {
        assert v[|v| - 1].computed.fontStyle == PromoteAll(e, v).fontStyle;
      } else if PromoteAll(e, v).fontStyle != e.fontStyle {
        var k :| 0 <= k < |front| && front[k].computed.fontStyle == mid.fontStyle;
        assert v[k] == front[k];
      }
      if exists k :: 0 <= k < |v| && Italicizes(v[k]) {
        var k :| 0 <= k < |v| && Italicizes(v[k]);
        if k < |v| - 1 {
          assert Italicizes(front[k]);
        }
      }
    }
  }

  /** Font weight, conversely: a replaced weight is the weight of a visited
      ancestor that is bold by tag or computed weight. */
  lemma {:induction false} WeightOnlyFromBold(e: Emphasis, v: seq<Ancestor>)
    ensures PromoteAll(e, v).fontWeight != e.fontWeight ==>
      exists k :: 0 <= k < |v| && Bolds(v[k]) && v[k].computed.fontWeight == PromoteAll(e, v).fontWeight
    decreases |v|
  {
    if |v| > 0 {
      var front := v[..|v| - 1];
      WeightOnlyFromBold(e, front);
      var mid := PromoteAll(e, front);
      var r := PromoteAll(e, v);
      PromoteStep(mid, v[|v| - 1]);
      if r.fontWeight != mid.fontWeight {
        assert Bolds(v[|v| - 1]) && v[|v| - 1].computed.fontWeight == r.fontWeight;
      } else if r.fontWeight != e.fontWeight {
        var k :| 0 <= k < |front| && Bolds(front[k]) && front[k].computed.fontWeight == mid.fontWeight;
        assert v[k] == front[k];
      }
    }
  }

  /** The test that moves a parent's style into the walk: an `I` or `EM`
      element, or one computing `italic`, whose own style is not `normal`.
      Unlike `Italicizes` it admits `inherit` and `initial`. */
  predicate ItalicTrigger(p: Ancestor)
  {
    var ps := p.computed.fontStyle;
    (p.tag == "I" || p.tag == "EM" || ps == "italic") && ps != "normal"
  }

  /** Font style, conversely: a replaced style is the style of a visited
      `I`, `EM` or italic ancestor whose style is not `normal`. */
  lemma {:induction false} StyleOnlyFromItalic(e: Emphasis, v: seq<Ancestor>)
    ensures PromoteAll(e, v).fontStyle != e.fontStyle ==>
      exists k :: 0 <= k < |v| && ItalicTrigger(v[k]) && v[k].computed.fontStyle == PromoteAll(e, v).fontStyle
    decreases |v|
  {
    if |v| > 0 {
      var front := v[..|v| - 1];
      StyleOnlyFromItalic(e, front);
      var mid := PromoteAll(e, front);
      var r := PromoteAll(e, v);
      PromoteStep(mid, v[|v| - 1]);
      if r.fontStyle != mid.fontStyle {
        assert ItalicTrigger(v[|v| - 1]) && v[|v| - 1].computed.fontStyle == r.fontStyle;
      } else if r.fontStyle != e.fontStyle {
        var k :| 0 <= k < |front| && ItalicTrigger(front[k]) && front[k].computed.fontStyle == mid.fontStyle;
        assert v[k] == front[k];
      }
    }
  }

  /** The test that moves a parent's decoration into the walk: a `U`
      element, or one whose lower-cased decoration mentions `underline`. */
  predicate Underlines(p: Ancestor)
  {
    p.tag == "U" || Contains(ToLower(p.computed.textDecoration), "underline")
  }

  /** The decoration and colour of a visited ancestor. */
  function DecorationOf(p: Ancestor): (string, string)
  {
    (p.computed.textDecoration, p.computed.textDecorationColor)
  }

  /** Decoration, conversely: with no `U` or underlined ancestor visited,
      the decoration and its colour are kept. */
  lemma {:induction false} NoUnderlinerKeeps(e: Emphasis, v: seq<Ancestor>)
    requires forall k :: 0 <= k < |v| ==> !Underlines(v[k])
    ensures (PromoteAll(e, v).textDecoration, PromoteAll(e, v).textDecorationColor) == (e.textDecoration, e.textDecorationColor)
    decreases |v|
  {
    if |v| > 0 {
      var front := v[..|v| - 1];
      assert forall k :: 0 <= k < |front| ==> !Underlines(front[k]) by {
        forall k | 0 <= k < |front| ensures !Underlines(front[k]) {
          assert front[k] == v[k];
        }
      }
      NoUnderlinerKeeps(e, front);
      PromoteStep(PromoteAll(e, front), v[|v| - 1]);
    }
  }

  /** Decoration, conversely: a changed decoration and colour are the pair
      of a visited `U` or underlined ancestor; and when the starting
      decoration is not a plain underline, any such ancestor makes the final
      pair that of one of them. */
  lemma {:induction false} DecorationFromUnderliner(e: Emphasis, v: seq<Ancestor>)
    ensures var r := PromoteAll(e, v);
      (r.textDecoration, r.textDecorationColor) != (e.textDecoration, e.textDecorationColor) ==>
        exists k :: 0 <= k < |v| && Underlines(v[k]) && DecorationOf(v[k]) == (r.textDecoration, r.textDecorationColor)
    ensures var r := PromoteAll(e, v);
      !PlainUnderline(e.textDecoration) && (exists k :: 0 <= k < |v| && Underlines(v[k])) ==>
        exists k :: 0 <= k < |v| && Underlines(v[k]) && DecorationOf(v[k]) == (r.textDecoration, r.textDecorationColor)
    decreases |v|
  {
    if |v| > 0 {
      var front := v[..|v| - 1];
      var last := v[|v| - 1];
      DecorationFromUnderliner(e, front);
      var mid := PromoteAll(e, front);
      var r := PromoteAll(e, v);
      PromoteStep(mid, last);
      var pair := (r.textDecoration, r.textDecorationColor);
      var midPair := (mid.textDecoration, mid.textDecorationColor);
      if pair != midPair {
        assert Underlines(v[|v| - 1]) && DecorationOf(v[|v| - 1]) == pair;
      } else if exists k :: 0 <= k < |front| && Underlines(front[k]) && DecorationOf(front[k]) == midPair {
        var k :| 0 <= k < |front| && Underlines(front[k]) && DecorationOf(front[k]) == midPair;
        assert v[k] == front[k];
      } else if !PlainUnderline(e.textDecoration) && (exists k :: 0 <= k < |v| && Underlines(v[k])) {
        if exists k :: 0 <= k < |front| && Underlines(front[k]) {
          assert false;
        } else {
          NoUnderlinerKeeps(e, front);
          assert Underlines(v[|v| - 1]);
          assert DecorationOf(v[|v| - 1]) == pair;
        }
      }
    }
  }

  /** A decoration that, lower-cased, mentions `underline` and not `none`. */
  predicate PlainUnderline(td: string)
  {
    Contains(ToLower(td), "underline") && !Contains(ToLower(td), "none")
  }

  /** The decoration is taken from a parent only as a pair: a changed
      decoration or decoration colour is the decoration and colour of one
      visited ancestor; an underline that mentions no `none` is kept; and a
      visited ancestor with such an underline always leaves one. */
  lemma {:induction false} DecorationPromotion(e: Emphasis, v: seq<Ancestor>)
    ensures var r := PromoteAll(e, v);
      (r.textDecoration, r.textDecorationColor) != (e.textDecoration, e.textDecorationColor) ==>
        exists k :: 0 <= k < |v| && (v[k].computed.textDecoration, v[k].computed.textDecorationColor) == (r.textDecoration, r.textDecorationColor)
    ensures PlainUnderline(e.textDecoration) ==>
      PromoteAll(e, v).textDecoration == e.textDecoration && PromoteAll(e, v).textDecorationColor == e.textDecorationColor
    ensures (exists k :: 0 <= k < |v| && PlainUnderline(v[k].computed.textDecoration)) ==>
      PlainUnderline(PromoteAll(e, v).textDecoration)
    decreases |v|
  {
    if |v| > 0 {
      var front := v[..|v| - 1];
      DecorationPromotion(e, front);
      var mid := PromoteAll(e, front);
      var r := PromoteAll(e, v);
      if (r.textDecoration, r.textDecorationColor) != (mid.textDecoration, mid.textDecorationColor) {
        assert (v[|v| - 1].computed.textDecoration, v[|v| - 1].computed.textDecorationColor) == (r.textDecoration, r.textDecorationColor);
      } else if (r.textDecoration, r.textDecorationColor) != (e.textDecoration, e.textDecorationColor) {
        var k :| 0 <= k < |front| && (front[k].computed.textDecoration, front[k].computed.textDecorationColor) == (mid.textDecoration, mid.textDecorationColor);
        assert v[k] == front[k];
      }
      if exists k :: 0 <= k < |v| && PlainUnderline(v[k].computed.textDecoration) {
        var k :| 0 <= k < |v| && PlainUnderline(v[k].computed.textDecoration);
        if k < |v| - 1 {
          assert PlainUnderline(front[k].computed.textDecoration);
        }
      }
    }
  }

  /** `textDecoration` is reduced to exactly `none` when, lower-cased, one of
      its space-separated words is `none`; otherwise it is kept verbatim. */
  function NormalizeDecoration(td: string): (r: string)
    ensures HasWord(ToLower(td), "none", ' ') ==> r == "none"
    ensures !HasWord(ToLower(td), "none", ' ') ==> r == td
  {
    SplitHasWord(ToLower(td), "none", ' ');
    if "none" in Split(ToLower(td), ' ') then "none" else td
  }

  /** The colour the editor's body shows through a transparent background. */
  const White: string := "rgb(255, 255, 255)"

  predicate IsTransparent(bg: string)
  {
    bg == "transparent" || bg == "rgba(0, 0, 0, 0)"
  }

  /** `getSelectedStyleFromPage`. The result is absent when the focus is not
      the message body, when there is no selection range, or when no element
      to read a style from can be found; otherwise it is the chosen element's
      colour, font and border values, its background with transparency
      replaced by white, its emphasis after the ancestor walk, and its
      decoration reduced to `none` when that is one of its words. */
  function GetSelectedStyle(focus: Option<Focus>, active: Option<Element>, sel: Selection): (r: Option<Snapshot>)
    ensures r.Some? <==> IsComposeBody(focus) && sel.rangeCount > 0 && ChooseElement(sel, active).Some?
    ensures r.Some? ==>
      var c := ChooseElement(sel, active).value.computed;
      var e := PromoteAll(Initial(c), Visited(ChooseElement(sel, active).value.parents));
      && r.value.color == c.color
      && r.value.fontFamily == c.fontFamily
      && r.value.fontSize == c.fontSize
      && r.value.borderBottomStyle == c.borderBottomStyle
      && r.value.borderBottomWidth == c.borderBottomWidth
      && r.value.borderBottomColor == c.borderBottomColor
      && (IsTransparent(c.backgroundColor) ==> r.value.backgroundColor == White)
      && (!IsTransparent(c.backgroundColor) ==> r.value.backgroundColor == c.backgroundColor)
      && r.value.fontWeight == e.fontWeight
      && r.value.fontStyle == e.fontStyle
      && r.value.textDecorationColor == e.textDecorationColor
      && (HasWord(ToLower(e.textDecoration), "none", ' ') ==> r.value.textDecoration == "none")
      && (!HasWord(ToLower(e.textDecoration), "none", ' ') ==> r.value.textDecoration == e.textDecoration)
  {
    if !IsComposeBody(focus) || sel.rangeCount == 0 then None
    else
      match ChooseElement(sel, active)
      case None => None
      case Some(el) =>
        var c := el.computed;
        var e := PromoteAll(Initial(c), Visited(el.parents));
        var background := if IsTransparent(c.backgroundColor) then White else c.backgroundColor;
        Some(Snapshot(
          color := c.color,
          backgroundColor := background,
          fontFamily := c.fontFamily,
          fontSize := c.fontSize,
          fontWeight := e.fontWeight,
          fontStyle := e.fontStyle,
          textDecoration := NormalizeDecoration(e.textDecoration),
          textDecorationColor := e.textDecorationColor,
          borderBottomStyle := c.borderBottomStyle,
          borderBottomWidth := c.borderBottomWidth,
          borderBottomColor := c.borderBottomColor))
  }
}
