# Format brush for the mail editor — a Dafny model

The extension copies the visible formatting of a selection in the mail
editor's message body ("copy format") and pastes it onto another selection
("paste format"). Both halves run as page functions of `background.js`:

- `getSelectedStyleFromPage` checks that the focused element is the message
  body and that there is a selection range. It picks the element to read
  from: the range's start element, else the common-ancestor element, else the
  focused element. It reads that element's computed style. It walks up at
  most three ancestors inside the editable region to promote bold, italic and
  underline from them. It reduces a decoration whose words include `none` to
  exactly `none` and replaces a transparent background with white. The
  result is an eleven-field snapshot.
- `applyStyleToSelectionInPage` checks the snapshot, the message-body focus
  and the selection. It looks up to three levels for a marked formatting
  container (`data-format-copier-applied="true"`) that the selection covers
  exactly. If it finds none, it makes a new marked `span`. It moves the
  selected contents into the container. It then applies the snapshot with
  `!important` to the container and to every element inside it
  (`elementalApplyStylesTo`, `processChildNodesRecursive`).

The Dafny modules follow that structure:

- `ComposeGate` is the message-body test both functions share.
- `JsString` models the JavaScript string operations used: ASCII
  `toLowerCase`, `includes`, `split(' ')` and `trim`.
- `Css` holds the computed style, the snapshot, and an inline style as a map
  from property to declaration, with `setProperty` and `removeProperty`.
- `Extract` is copy format.
- `ApplyElement` is paste format on one element.
- `ApplyTree` is paste format on a tree of nodes.
- `ApplySelection` covers the gates, the container search and the whole
  paste.
- `Scenarios` holds worked cases on concrete styles.

The DOM is not modelled as a mutable structure. Each page function becomes a
pure function of what it reads: the focused element's attributes, the
selection's range count and collapsed flag, the chosen element with its
computed style and its ancestors, and the chain of candidate containers with
the boundary and containment facts the search tests.

## Model

| member | source | states |
|---|---|---|
| `JsString.ToLower` | background.js:139 | lower-casing keeps the length and maps each character through ASCII lower-casing |
| `JsString.Contains` | background.js:139-140 | `includes(t)` holds exactly when `t` occurs in the string starting at some index (the same test is used at background.js:311 and 315) |
| `JsString.ContainsIsScan` | background.js:139-140 | `includes(t)` holds exactly when `t` is a prefix of the string or is included after its first character, and only in a string at least as long as `t` |
| `JsString.Split` | background.js:150 | `split(' ')` yields at least one piece and no piece contains the separator |
| `JsString.JoinSplit` | background.js:150 | joining the pieces of a split with the separator gives back the input, so splitting loses nothing |
| `JsString.SplitHasWord` | background.js:150-151 | a separator-free word is among the pieces exactly when it occurs in the string bounded by separators or the ends |
| `JsString.TrimSpec` | background.js:230-231 | `trim()` returns a slice of the input with only whitespace cut on both sides, neither end of the result is whitespace, and it is empty exactly when the input is all whitespace |
| `Css.SetProperty` | background.js:292 | `setProperty` gives the property the new declaration, or removes it for an empty value, and changes no other property |
| `Css.RemoveProperty` | background.js:295 | `removeProperty` leaves the property without a declaration and changes no other property |
| `ComposeGate.IsComposeBody` | background.js:76-80 | the focused element is the message body exactly when it is editable and carries the label `Текст письма` or `Message Body`, the class `Am`, or `g_editable="true"`; both page functions use this test (the same expression stands at background.js:182-186) |
| `Extract.ChooseElement` | background.js:93-113 | the start element is used when there is one; otherwise the common-ancestor element of a non-collapsed selection; otherwise the focused element; no element is found exactly when all three are missing |
| `Extract.VisitedUpTo` | background.js:124-129 | the walk visits a prefix of the parent chain of at most three elements, all inside the editable region, and stops early only at a parent outside it |
| `Extract.WalkAncestors` | background.js:123-148 | the ancestor loop computes the promotion over exactly the visited ancestors, in order |
| `Extract.WeightPromotion` | background.js:132-134 | a non-default weight is never replaced; a replaced weight is non-default and comes from a visited ancestor; a bold visited ancestor always leaves a non-default weight |
| `Extract.WeightOnlyFromBold` | background.js:132-134 | conversely, a replaced weight is the weight of a visited ancestor that is a `B` or computes `700` or `bold` |
| `Extract.PromoteStep` | background.js:132-146 | one step of the walk keeps each value or reads it from the parent, moves the decoration and its colour together, after a bold, italic or underlined parent the value is bold, italic or underlined; and a value changes only when the current value is default-looking and the parent passes the source's trigger test (`B` or bold weight; `I`, `EM` or `italic` with a style other than `normal`; `U` or a decoration mentioning `underline`), the decoration pair being taken whenever the current one is not an underline free of `none` and the parent passes |
| `Extract.StylePromotion` | background.js:135-137 | a non-plain font style is never replaced; a replaced style is not `normal` and comes from a visited ancestor; a visited `I`, `EM` or italic ancestor whose own style is not plain always leaves a style that is not plain |
| `Extract.StyleOnlyFromItalic` | background.js:135-137 | conversely, a replaced style is the style of a visited `I`, `EM` or italic ancestor whose own style is not `normal` |
| `Extract.DecorationPromotion` | background.js:139-146 | over the whole walk the decoration and its colour change only as a pair from one visited ancestor; an underline without `none` is never replaced; a visited ancestor with such an underline always leaves one |
| `Extract.NoUnderlinerKeeps` | background.js:139-146 | when no visited ancestor is a `U` or has a decoration mentioning `underline`, the decoration and its colour are kept |
| `Extract.DecorationFromUnderliner` | background.js:139-146 | conversely, a changed decoration and colour are the pair of a visited `U` or underlined ancestor; and when the starting decoration is not an underline free of `none`, any such ancestor makes the final pair that of one of them |
| `Extract.NormalizeDecoration` | background.js:150-154 | the decoration becomes `none` exactly when `none` is one of its lower-cased space-separated words, and is otherwise kept verbatim |
| `Extract.GetSelectedStyle` | background.js:74-174 | a snapshot is produced exactly when the focus is the message body, there is a range and an element is found; its colour, font and border fields are the element's, a transparent background becomes white, and emphasis and decoration come from the walk and the `none` reduction |
| `ApplyElement.SetListed` | background.js:284-299 | one round of the property loop leaves the property at its policy outcome and touches no other property |
| `ApplyElement.SetListedAll` | background.js:284-299 | the property loop leaves each property it visits at its policy outcome, whatever order or repeats, and touches no other property |
| `ApplyElement.SetFontAndColour` | background.js:278-299 | after the loop all six colour and font properties follow the policy and every other property is unchanged |
| `ApplyElement.FontAndColourPolicy` | background.js:278-299 | in any pasted style, weight and style are always written with `!important`, falling back to `400` and `normal`; colour, family, size and background are written verbatim when usable and cleared when absent or one of the keywords `inherit`, `initial`, `auto` |
| `ApplyElement.UnderlineColour` | background.js:315-316 | the underline colour is never empty; it is the decoration colour when that is present, differs from the text colour ignoring case and is not transparent black; otherwise it is the text colour or `initial` |
| `ApplyElement.SetDecoration` | background.js:302-326 | the decoration branch leaves the decoration properties conforming to the snapshot and changes no other property |
| `ApplyElement.DecorationPolicy` | background.js:302-326 | `none` clears the four longhands and writes the shorthand `none`; an underline clears the shorthand and writes a solid underline of automatic thickness; another value is written verbatim; no value writes `none` |
| `ApplyElement.SetBorderBottom` | background.js:329-336 | the border branch leaves the bottom border conforming to the snapshot and changes no other property |
| `ApplyElement.BorderPolicy` | background.js:329-336 | no style or `none` in any case writes `border-bottom: none`; any other style copies style, width and colour with `!important` |
| `ApplyElement.ElementalApply` | background.js:274-340 | the tag is kept, the inline style conforms to the snapshot, properties the paste does not write keep their declarations, and the only attribute change is dropping a `<font color>` when the snapshot has a colour |
| `ApplyElement.ConformsDetermines` | background.js:274-340 | two conforming inline styles that agree on the properties the paste does not write are equal |
| `ApplyElement.ApplyIdempotent` | background.js:274-340 | pasting the same snapshot onto an element twice gives the same element as pasting it once |
| `ApplyTree.ApplyNode` | background.js:343-352 | styling a subtree keeps its shape and its text nodes, and turns every element into that element styled by the snapshot: same tag, attributes less a `<font color>` the snapshot overrides, a conforming inline style, and every unwritten declaration kept |
| `ApplyTree.ApplyChildren` | background.js:344-351 | styling a list of children styles each child subtree in the same way, in order |
| `ApplyTree.ApplyNodeIdempotent` | background.js:343-352 | styling a subtree twice with the same snapshot gives the same tree as styling it once |
| `ApplySelection.Reusable` | background.js:210-238 | a candidate is reused when it is marked and the selection's boundary points match its contents, or else the trimmed texts are equal and non-empty and it contains both ends of the range |
| `ApplySelection.FindReusable` | background.js:207-249 | the reuse loop with its guard corrected to stop at the message body returns the first reusable candidate among at most three below the message body, and none only when no such candidate is reusable |
| `ApplySelection.ReuseIndex` | background.js:207-249 | the corrected search returns a searchable, reusable candidate with no reusable one before it, or none when no searchable candidate is reusable |
| `ApplySelection.ReuseIndexAsWritten` | background.js:209-249 | the search as written returns the first reusable candidate among the first three, whatever their relation to the message body |
| `ApplySelection.ComposeBodyGuardNeverStops` | background.js:209 | a marked message body whose contents are selected exactly is reused by the search as written and skipped by the corrected search |
| `ApplySelection.StyledContainer` | background.js:343-352 | styling a container gives that container styled by the snapshot, so a marked container stays marked, and its contents are styled too |
| `ApplySelection.Restyle` | background.js:252-270 | the contents, styled, end up in a marked container; the container is reused exactly when the corrected search finds one, and then it is the first reusable searchable candidate, styled; otherwise it is a new marked `SPAN`, styled |
| `ApplySelection.Paste` | background.js:177-191 | nothing changes exactly when the snapshot is missing, the focus is not the message body, there is no range or the selection is collapsed, and the reason follows that check order; otherwise the selection is restyled |
| `Scenarios.CopyInsideBold` | background.js:132-157 | plain text inside a bold parent copies as weight `700`, with a white background and decoration `none` |
| `Scenarios.CopyOutsideBody` | background.js:76-85 | copying while the focus is not editable yields nothing |
| `Scenarios.PasteUnderline` | background.js:311-319 | pasting an underline over an inline `text-decoration: none` removes the shorthand and writes a solid underline in the text colour |
| `Scenarios.PasteNoneOverUnderline` | background.js:304-310 | pasting a `none` decoration over earlier underline longhands clears them and writes the shorthand `none` |

## Left out

- The extension wiring (background.js:3-71) is not modelled: installation, keyboard commands, the mail-site URL test, script injection and `chrome.storage`. The snapshot handed to paste format is a parameter.
- content_script.js is not part of this model. It only logs.
- Console logging is not modelled.
- `window.getComputedStyle`, `window.getSelection`, `Range.compareBoundaryPoints`, `Node.contains` and `textContent` are inputs. The model receives their outcomes as fields of `Selection`, `Element`, `Ancestor` and `Candidate`.
- The DOM mutations of paste format are not modelled in place: `extractContents`, emptying a reused container, `insertNode`, `appendChild` (background.js:252-270) and the re-selection of the container (background.js:354-357). The model returns the container with the extracted contents as its children.
- CSSOM shorthand expansion is not modelled. Inline styles are a flat map from property name to declaration, so `text-decoration` and `border-bottom` do not clear or fill their longhands. CSS value validation is not modelled either: `setProperty` stores any non-empty value and removes on an empty one.
- `Css.SetProperty`: an invalid CSS value is stored rather than ignored, because value parsing is not modelled.
- The guards `!parentEl.style`, `!element.style`, `getAttribute` presence and the element-node test (background.js:129, 209, 275, 346) are not modelled. They always hold for the elements the model represents. Text nodes are the `Text` case of `ApplyTree.Node` and are skipped as in the source.
- Snapshot fields are strings, and an absent value is the empty string. The snapshot comes only from copy format, through storage, so `styles.color` is never `undefined` and the `toLowerCase` call at background.js:315 cannot fail.
- `JsString.ToLower` lower-cases ASCII letters only. CSS keywords and colour notations are ASCII.
- The underline colour falls back to the text colour, or `initial` when there is none, as the code at background.js:316 does.
- background.js has no word-by-word mode, so none is modelled.
- `ApplySelection.Restyle`: the container is chosen by the corrected search `ApplySelection.ReuseIndex`, which stops at the message body, not by the search as written at background.js:209, which never stops there (see Findings). On a marked message body whose contents are selected exactly, the source reuses the message body and the model makes a new `SPAN`.
- `ApplySelection.Paste`: it restyles through `ApplySelection.Restyle`, so it shares the corrected search.

## Findings

| source | as written | input that shows it | evidently intended | confidence | as-written member | corrected member |
|---|---|---|---|---|---|---|
| background.js:182-209 | `composeBody` holds the boolean outcome of the gate, so `currentTraversalElement !== composeBody` is always true and the reuse search can climb onto and above the message body | a message body that carries `data-format-copier-applied="true"` and whose whole contents are selected: the search reuses the message body itself as the formatting container | the search stops at the message body and only reuses containers inside it | not executed; low practical impact, because the message body is rarely marked | `ApplySelection.ReuseIndexAsWritten`, `ApplySelection.ComposeBodyGuardNeverStops` | `ApplySelection.ReuseIndex`, `ApplySelection.FindReusable` |
