/** "Paste format": `applyStyleToSelectionInPage`. It checks its gates,
    looks for a formatting container to reuse, and styles the container and
    everything inside it. */
module ApplySelection {
  import opened Options
  import opened JsString
  import opened Css
  import opened ComposeGate
  import opened ApplyElement
  import opened ApplyTree

  /** The attribute that marks a formatting container. */
  const MarkerAttribute: string := "data-format-copier-applied"

  /** The reuse search looks at most this many elements up. */
  const MaxReuseLevels: nat := 3

  /** The element carries the marker attribute with value `true`. */
  predicate IsMarked(attrs: map<string, string>)
  {
    MarkerAttribute in attrs && attrs[MarkerAttribute] == "true"
  }

  /** One element on the chain the reuse search walks up, starting at the
      element holding the range's common ancestor: the element itself,
      whether it is the message body, whether the range's boundary points
      coincide with those of the element's contents, its `textContent`, and
      whether it contains the range's start and end containers. */
  datatype Candidate = Candidate(
    el: ElementState,
    isComposeBody: bool,
    boundaryMatch: bool,
    textContent: string,
    containsStart: bool,
    containsEnd: bool)

  /** A marked element the selection covers exactly: the boundary points
      match, or else the trimmed texts are equal and non-empty and the element
      contains both ends of the range. */
  predicate Reusable(c: Candidate, rangeText: string)
  {
    && IsMarked(c.el.attrs)
    && (|| c.boundaryMatch
        || (&& Trim(rangeText) == Trim(c.textContent)
            && |Trim(rangeText)| > 0
            && c.containsStart
            && c.containsEnd))
  }

  /** The search may look at position `i`: within the first three elements
      and below the message body. */
  predicate Searchable(chain: seq<Candidate>, i: nat)
  {
    i < MaxReuseLevels && i < |chain| && forall k :: 0 <= k <= i ==> !chain[k].isComposeBody
  }

  /** The reuse loop of `applyStyleToSelectionInPage`, with its guard
      corrected to stop at the message body: the first searchable element of
      the chain that is reusable, if any. */
  method FindReusable(chain: seq<Candidate>, rangeText: string) returns (found: Option<nat>)
    ensures found == ReuseIndex(chain, rangeText, 0)
    ensures found.Some? ==>
      && Searchable(chain, found.value)
      && Reusable(chain[found.value], rangeText)
      && forall k :: 0 <= k < found.value ==> !Reusable(chain[k], rangeText)
    ensures found.None? ==> forall k: nat :: Searchable(chain, k) ==> !Reusable(chain[k], rangeText)
  {
    var i := 0;
    while i < MaxReuseLevels && i < |chain| && !chain[i].isComposeBody
      invariant i <= MaxReuseLevels && i <= |chain|
      invariant forall k :: 0 <= k < i ==> !chain[k].isComposeBody
      invariant forall k :: 0 <= k < i ==> !Reusable(chain[k], rangeText)
    {
      if Reusable(chain[i], rangeText) {
        return Some(i);
      }
      if i + 1 == |chain| {
        break;
      }
      i := i + 1;
    }
    found := None;
    forall k: nat | Searchable(chain, k)
      ensures !Reusable(chain[k], rangeText)
    {
      if k >= i {
        assert !chain[i].isComposeBody;
      }
    }
  }

  /** The corrected search as a function: the first reusable element among
      the searchable ones. */
  function ReuseIndex(chain: seq<Candidate>, rangeText: string, i: nat): (r: Option<nat>)
    requires forall k :: 0 <= k < i && k < |chain| ==> !chain[k].isComposeBody
    ensures r.Some? ==>
      && i <= r.value
      && Searchable(chain, r.value)
      && Reusable(chain[r.value], rangeText)
      && forall k :: i <= k < r.value ==> !Reusable(chain[k], rangeText)
    ensures r.None? ==> forall k: nat :: i <= k && Searchable(chain, k) ==> !Reusable(chain[k], rangeText)
    decreases MaxReuseLevels - i
  {
    if i >= MaxReuseLevels || i >= |chain| || chain[i].isComposeBody then None
    else if Reusable(chain[i], rangeText) then Some(i)
    else ReuseIndex(chain, rangeText, i + 1)
  }

  /** The reuse search as the source writes it. Its guard compares the
      element with `composeBody`, which holds the boolean outcome of the gate
      rather than the message-body element, so the comparison never stops the
      walk: only the three-level bound and the end of the chain do. */
  function ReuseIndexAsWritten(chain: seq<Candidate>, rangeText: string, i: nat): (r: Option<nat>)
    ensures r.Some? ==>
      && i <= r.value < MaxReuseLevels && r.value < |chain|
      && Reusable(chain[r.value], rangeText)
      && forall k :: i <= k < r.value ==> !Reusable(chain[k], rangeText)
    ensures r.None? ==> forall k :: i <= k < MaxReuseLevels && k < |chain| ==> !Reusable(chain[k], rangeText)
    decreases MaxReuseLevels - i
  {
    if i >= MaxReuseLevels || i >= |chain| then None
    else if Reusable(chain[i], rangeText) then Some(i)
    else ReuseIndexAsWritten(chain, rangeText, i + 1)
  }

  /** A marked message body whose contents are selected exactly: the search
      as written reuses the message body itself as the formatting container,
      while the intended search stops before it. */
  lemma ComposeBodyGuardNeverStops()
    ensures var body := Candidate(ElementState("DIV", map[MarkerAttribute := "true"], map[]), true, true, "Hi", true, true);
      && ReuseIndexAsWritten([body], "Hi", 0) == Some(0)
      && ReuseIndex([body], "Hi", 0) == None
  {
  }

  /** What the applier learns from `window.getSelection()`: the number of
      ranges, whether the selection is collapsed, the range's text, the chain
      the reuse search walks up, and the contents the range extracts. */
  datatype PasteTarget = PasteTarget(
    rangeCount: nat,
    collapsed: bool,
    rangeText: string,
    chain: seq<Candidate>,
    contents: seq<Node>)

  /** Why a paste changed nothing. */
  datatype Skip = NoSnapshot | NotComposeBody | NoRange | Collapsed

  /** The outcome of a paste: nothing changed, or the styled container that
      now holds the selected contents, and whether it was reused. */
  datatype PasteResult =
    | Unchanged(reason: Skip)
    | Pasted(container: Node, reused: bool)

  /** A new formatting container: an empty marked `span`. */
  const NewContainer: ElementState := ElementState("SPAN", map[MarkerAttribute := "true"], map[])

  /** The styling part of `applyStyleToSelectionInPage`, past its gates:
      the extracted contents go into the first reusable container, else into
      a new marked span, and the snapshot is applied to that container and
      every element in it. The container is chosen by the corrected search,
      which never reuses the message body or anything above it. */
  function Restyle(s: Snapshot, target: PasteTarget): (r: PasteResult)
    ensures r.Pasted? && r.container.Elem?
    ensures IsMarked(r.container.el.attrs)
    ensures StyledAll(s, target.contents, r.container.children)
    ensures var found := ReuseIndex(target.chain, target.rangeText, 0);
      && (r.reused <==> found.Some?)
      && (found.Some? ==> ElementStyled(s, target.chain[found.value].el, r.container.el))
      && (found.None? ==> ElementStyled(s, NewContainer, r.container.el))
    ensures r.reused ==>
      exists k: nat :: && Searchable(target.chain, k) && Reusable(target.chain[k], target.rangeText)
                       && (forall j :: 0 <= j < k ==> !Reusable(target.chain[j], target.rangeText))
                       && ElementStyled(s, target.chain[k].el, r.container.el)
    ensures !r.reused ==>
      && r.container.el.tag == "SPAN"
      && forall k: nat :: Searchable(target.chain, k) ==> !Reusable(target.chain[k], target.rangeText)
  {
    var found := ReuseIndex(target.chain, target.rangeText, 0);
    var container := if found.Some? then target.chain[found.value].el else NewContainer;
    var styled := ApplyNode(s, Elem(container, target.contents));
    StyledContainer(s, container, target.contents);
    if found.Some? then
      Pasted(styled, true)
    else
      Pasted(styled, false)
  }

  /** Styling a container keeps it the same element, styled: same tag,
      same attributes but a legacy `<font color>`, so a marked container
      stays marked; its contents are styled too. */
  lemma StyledContainer(s: Snapshot, container: ElementState, contents: seq<Node>)
    ensures var styled := ApplyNode(s, Elem(container, contents));
      && styled.Elem?
      && ElementStyled(s, container, styled.el)
      && (IsMarked(container.attrs) ==> IsMarked(styled.el.attrs))
      && StyledAll(s, contents, styled.children)
  {
    var el := ElementalApply(s, container);
    var children := ApplyChildren(s, contents);
    assert ApplyNode(s, Elem(container, contents)) == Elem(el, children);
    assert ElementStyled(s, container, el);
    if IsMarked(container.attrs) && DropsFontColour(s, container) {
      MarkerSurvives(container.attrs);
    }
  }

  /** Dropping a `color` attribute keeps the marker. */
  lemma MarkerSurvives(attrs: map<string, string>)
    requires IsMarked(attrs)
    ensures IsMarked(attrs - {"color"})
  {
    assert MarkerAttribute[0] != "color"[0];
  }

  /** `applyStyleToSelectionInPage`. It changes nothing when there is no
      snapshot, the focus is not the message body, there is no range, or the
      selection is collapsed, and says which check stopped it; otherwise it
      restyles the selection. */
  function Paste(snapshot: Option<Snapshot>, focus: Option<Focus>, target: PasteTarget): (r: PasteResult)
    ensures r.Unchanged? <==>
      snapshot.None? || !IsComposeBody(focus) || target.rangeCount == 0 || target.collapsed
    ensures r.Unchanged? ==>
      r.reason == (if snapshot.None? then NoSnapshot
                   else if !IsComposeBody(focus) then NotComposeBody
                   else if target.rangeCount == 0 then NoRange
                   else Collapsed)
    ensures r.Pasted? ==> r == Restyle(snapshot.value, target)
  {
    if snapshot.None? then Unchanged(NoSnapshot)
    else if !IsComposeBody(focus) then Unchanged(NotComposeBody)
    else if target.rangeCount == 0 then Unchanged(NoRange)
    else if target.collapsed then Unchanged(Collapsed)
    else Restyle(snapshot.value, target)
  }
}
