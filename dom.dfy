/** The two scans the exporter runs inside the page: finding the plugin's relaunch
    control by its exact trimmed label, and deciding that the sync is over because no
    visible element still shows the busy text. The page is a sequence of elements, each
    with its text content and whether it has a layout parent (is visible). */
module Dom {
  import opened Wrappers
  import opened JsText

  datatype Element = Element(text: string, visible: bool)

  /** The label of the relaunch control that starts the sheet re-sync. */
  const ButtonText := "Re-sync Google Sheets Data"
  /** The text the plugin shows while the sync is still running. */
  const BusyText := "Fetching images"

  /** An element's text content, with surrounding whitespace removed, is `target`. */
  predicate Labelled(e: Element, target: string) {
    Trim(e.text) == target
  }

  /** The scan over the relaunch panel's elements: the position of the first element
      whose trimmed text is exactly `target`, the one that gets clicked; None when no
      element matches, in which case nothing is clicked. */
  function FindControl(elements: seq<Element>, target: string): Option<nat>
    decreases |elements|
  {
    if elements == [] then None
    else if Labelled(elements[0], target) then Some(0)
    else
      match FindControl(elements[1..], target)
      case None => None
      case Some(i) => Some(i + 1)
  }

  /** The scan finds the first element whose trimmed text is exactly `target`, and
      finds nothing exactly when no element's is. Visibility plays no part, and a text
      that merely contains `target`, or is contained in it, does not match. */
  lemma {:induction false} FindControlFirstMatch(elements: seq<Element>, target: string)
    ensures var r := FindControl(elements, target);
      && (r.Some? ==> r.value < |elements| && Labelled(elements[r.value], target))
      && (r.Some? ==> forall j | 0 <= j < r.value :: !Labelled(elements[j], target))
      && (r.None? <==> forall j | 0 <= j < |elements| :: !Labelled(elements[j], target))
    decreases |elements|
  {
    if elements != [] && !Labelled(elements[0], target) {
      var rest := elements[1..];
      FindControlFirstMatch(rest, target);
      assert forall j | 0 <= j < |rest| :: rest[j] == elements[j + 1];
    }
  }

  /** An element whose text is a label padded with whitespace matches that label
      (the control's label neither starts nor ends with whitespace), and it is the one
      found when no earlier element already matches. */
  lemma PaddedLabelIsFound(elements: seq<Element>, target: string, i: nat, pre: string, post: string)
    requires target != [] && !IsWhitespace(target[0]) && !IsWhitespace(target[|target| - 1])
    requires i < |elements| && elements[i].text == pre + target + post
    requires AllWhitespace(pre) && AllWhitespace(post)
    requires forall j | 0 <= j < i :: !Labelled(elements[j], target)
    ensures FindControl(elements, target) == Some(i)
  {
    TrimPadded(pre, target, post);
    assert Labelled(elements[i], target);
    FindControlFirstMatch(elements, target);
  }

  /** `.filter(el => el.offsetParent !== null)`: the visible elements, in page order. */
  function VisibleElements(elements: seq<Element>): seq<Element>
    decreases |elements|
  {
    if elements == [] then []
    else
      var rest := VisibleElements(elements[1..]);
      if elements[0].visible then [elements[0]] + rest else rest
  }

  /** The filter keeps exactly the visible elements and no more than it was given. */
  lemma {:induction false} VisibleElementsKeepsVisible(elements: seq<Element>)
    ensures |VisibleElements(elements)| <= |elements|
    ensures forall e :: e in VisibleElements(elements) <==> e in elements && e.visible
    decreases |elements|
  {
    if elements != [] {
      VisibleElementsKeepsVisible(elements[1..]);
      assert forall e :: e in elements <==> e == elements[0] || e in elements[1..];
    }
  }

  /** `.some(el => el.textContent.includes(text))`. */
  function AnyIncludes(elements: seq<Element>, text: string): bool
    decreases |elements|
  {
    if elements == [] then false
    else Includes(elements[0].text, text) || AnyIncludes(elements[1..], text)
  }

  /** The test holds exactly when some element's text contains `text`. */
  lemma {:induction false} AnyIncludesSome(elements: seq<Element>, text: string)
    ensures AnyIncludes(elements, text) <==> exists e :: e in elements && Includes(e.text, text)
    decreases |elements|
  {
    if elements != [] {
      AnyIncludesSome(elements[1..], text);
      assert forall e :: e in elements <==> e == elements[0] || e in elements[1..];
    }
  }

  /** The completion check: no visible element's text contains the busy text. */
  predicate SyncDone(elements: seq<Element>) {
    !AnyIncludes(VisibleElements(elements), BusyText)
  }

  /** The sync counts as over exactly when no visible element's text contains the busy
      text; a record marked hidden never holds it up by its own text. A record's text
      stands for the whole `textContent`, hidden descendants included, so a visible
      container whose text holds the busy text still holds the wait up. */
  lemma SyncDoneMeans(elements: seq<Element>)
    ensures SyncDone(elements) <==> forall i | 0 <= i < |elements| ::
      elements[i].visible ==> !Includes(elements[i].text, BusyText)
  {
    VisibleElementsKeepsVisible(elements);
    AnyIncludesSome(VisibleElements(elements), BusyText);
    assert forall i | 0 <= i < |elements| :: elements[i] in elements;
  }
}
