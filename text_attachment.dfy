/**
 * Attaching OCR text to detected elements (`attach_text_to_elements`,
 * layout_flow.py): each entry goes to the first element, in detection order,
 * whose closed box contains the entry's centroid, or else to the unassigned list.
 */
module TextAttachment {
  import opened Wrappers
  import opened Geometry
  import opened LayoutModel

  /**
   * The position of the first box containing `c`, or `|boxes|` when none does.
   */
  function FirstContaining(boxes: seq<DetectedBox>, c: Point): (r: nat)
    ensures r <= |boxes|
    ensures r < |boxes| ==> Contains(boxes[r].bbox, c)
    ensures forall t :: 0 <= t < r ==> !Contains(boxes[t].bbox, c)
  {
    if boxes == [] then 0
    else if Contains(boxes[0].bbox, c) then 0
    else 1 + FirstContaining(boxes[1..], c)
  }

  lemma TakeOneMore<T>(s: seq<T>, i: nat)
    requires i < |s|
    ensures s[..i + 1] == s[..i] + [s[i]]
  {
  }

  /** The boxes of a list of elements. */
  function Boxes(els: seq<Element>): (r: seq<DetectedBox>)
    ensures |r| == |els|
    ensures forall j :: 0 <= j < |els| ==> r[j] == DetectedBox(els[j].labelText, els[j].bbox)
  {
    seq(|els|, j requires 0 <= j < |els| => DetectedBox(els[j].labelText, els[j].bbox))
  }

  /** Where an entry ends up: element `Owner(...)`, or unassigned when that is `|boxes|`. */
  function Owner(boxes: seq<DetectedBox>, e: OcrEntry): nat
  {
    FirstContaining(boxes, Centroid(e.polygon))
  }

  /**
   * The entries routed to destination `j` (element `j`, or the unassigned list
   * when `j == |boxes|`), in OCR order.
   */
  function Routed(entries: seq<OcrEntry>, boxes: seq<DetectedBox>, j: nat): seq<OcrEntry>
  {
    if entries == [] then []
    else
      var last := entries[|entries| - 1];
      Routed(entries[..|entries| - 1], boxes, j) + (if Owner(boxes, last) == j then [last] else [])
  }

  /** Appending an entry appends it to its own destination and to no other. */
  lemma RoutedSnoc(entries: seq<OcrEntry>, boxes: seq<DetectedBox>, e: OcrEntry, j: nat)
    ensures Routed(entries + [e], boxes, j) == Routed(entries, boxes, j) + (if Owner(boxes, e) == j then [e] else [])
  {
    assert (entries + [e])[..|entries|] == entries;
  }

  /**
   * Destination `j` holds exactly the entries whose owner is `j`, each as often
   * as it occurs in the OCR result.
   */
  lemma {:induction false} RoutedExactly(entries: seq<OcrEntry>, boxes: seq<DetectedBox>, j: nat, e: OcrEntry)
    ensures e in Routed(entries, boxes, j) ==> Owner(boxes, e) == j
    ensures Owner(boxes, e) == j ==> multiset(Routed(entries, boxes, j))[e] == multiset(entries)[e]
    decreases |entries|
  {
    if entries != [] {
      var init, last := entries[..|entries| - 1], entries[|entries| - 1];
      assert entries == init + [last];
      RoutedSnoc(init, boxes, last, j);
      RoutedExactly(init, boxes, j, e);
    }
  }

  /** An entry is attached to element `j` exactly when box `j` is the first box holding its centroid. */
  lemma AttachedExactly(entries: seq<OcrEntry>, boxes: seq<DetectedBox>, j: nat, e: OcrEntry)
    requires j < |boxes|
    ensures e in Routed(entries, boxes, j) <==>
      e in entries && Contains(boxes[j].bbox, Centroid(e.polygon))
      && forall t :: 0 <= t < j ==> !Contains(boxes[t].bbox, Centroid(e.polygon))
  {
    RoutedExactly(entries, boxes, j, e);
    var c := Centroid(e.polygon);
    if e in entries && Contains(boxes[j].bbox, c) && forall t :: 0 <= t < j ==> !Contains(boxes[t].bbox, c) {
      var r := FirstContaining(boxes, c);
      assert !(r < j) && !(j < r);
    }
  }

  /** An entry is left unassigned exactly when no box holds its centroid. */
  lemma UnassignedExactly(entries: seq<OcrEntry>, boxes: seq<DetectedBox>, e: OcrEntry)
    ensures e in Routed(entries, boxes, |boxes|) <==>
      e in entries && forall t :: 0 <= t < |boxes| ==> !Contains(boxes[t].bbox, Centroid(e.polygon))
  {
    RoutedExactly(entries, boxes, |boxes|, e);
  }

  /** Every text an element holds has its centroid inside the element's box. */
  ghost predicate TextsInside(els: seq<Element>)
  {
    forall k, e :: 0 <= k < |els| && e in els[k].texts ==> Contains(els[k].bbox, Centroid(e.polygon))
  }

  /** The layout elements before any text arrives: copies of the boxes with empty `texts`. */
  function Copies(boxes: seq<DetectedBox>): (r: seq<Element>)
    ensures |r| == |boxes|
    ensures forall j :: 0 <= j < |boxes| ==> r[j] == Element(boxes[j].labelText, boxes[j].bbox, [], None)
  {
    seq(|boxes|, j requires 0 <= j < |boxes| => Element(boxes[j].labelText, boxes[j].bbox, [], None))
  }

  /** The elements once every entry of `entries` has been routed. */
  function Attached(boxes: seq<DetectedBox>, entries: seq<OcrEntry>): (r: seq<Element>)
    ensures |r| == |boxes|
    ensures forall j :: 0 <= j < |boxes| ==> r[j] == Element(boxes[j].labelText, boxes[j].bbox, Routed(entries, boxes, j), None)
  {
    seq(|boxes|, j requires 0 <= j < |boxes| => Element(boxes[j].labelText, boxes[j].bbox, Routed(entries, boxes, j), None))
  }

  lemma CopiesHoldNoText(boxes: seq<DetectedBox>)
    ensures TextBag(Copies(boxes)) == multiset{}
    decreases |boxes|
  {
    if boxes != [] {
      assert Copies(boxes)[..|boxes| - 1] == Copies(boxes[..|boxes| - 1]);
      CopiesHoldNoText(boxes[..|boxes| - 1]);
    }
  }

  /** Element `j` holds exactly the texts routed to it by the first `i` entries. */
  ghost predicate AttachedSoFar(boxes: seq<DetectedBox>, entries: seq<OcrEntry>, elements: seq<Element>)
  {
    && |elements| == |boxes|
    && forall j :: 0 <= j < |boxes| ==>
         elements[j] == Element(boxes[j].labelText, boxes[j].bbox, Routed(entries, boxes, j), None)
  }

  /** The state of `attach_text_to_elements` after the entries `done`. */
  ghost predicate Routing(boxes: seq<DetectedBox>, done: seq<OcrEntry>, elements: seq<Element>, unassigned: seq<OcrEntry>)
  {
    && AttachedSoFar(boxes, done, elements)
    && unassigned == Routed(done, boxes, |boxes|)
    && TextBag(elements) + multiset(unassigned) == multiset(done)
  }

  /** Routing one more entry to its owner keeps `Routing` for the longer prefix. */
  lemma RoutingStep(boxes: seq<DetectedBox>, done: seq<OcrEntry>, elements: seq<Element>, unassigned: seq<OcrEntry>, e: OcrEntry)
    requires Routing(boxes, done, elements, unassigned)
    ensures Boxes(elements) == boxes
    ensures var o := Owner(boxes, e);
      Routing(boxes, done + [e],
        if o < |boxes| then elements[o := elements[o].(texts := elements[o].texts + [e])] else elements,
        if o < |boxes| then unassigned else unassigned + [e])
  {
    AttachedSoFarStep(boxes, done, elements, e);
    RoutedSnoc(done, boxes, e, |boxes|);
    BagStep(done, elements, unassigned, e, Owner(boxes, e));
  }

  lemma BagStep(done: seq<OcrEntry>, elements: seq<Element>, unassigned: seq<OcrEntry>, e: OcrEntry, o: nat)
    requires TextBag(elements) + multiset(unassigned) == multiset(done)
    ensures o < |elements| ==>
      TextBag(elements[o := elements[o].(texts := elements[o].texts + [e])]) + multiset(unassigned) == multiset(done + [e])
    ensures o >= |elements| ==> TextBag(elements) + multiset(unassigned + [e]) == multiset(done + [e])
  {
    if o < |elements| {
      TextBagAddText(elements, o, e);
    }
  }

  lemma AttachedSoFarStep(boxes: seq<DetectedBox>, done: seq<OcrEntry>, elements: seq<Element>, e: OcrEntry)
    requires AttachedSoFar(boxes, done, elements)
    ensures var o := Owner(boxes, e);
      AttachedSoFar(boxes, done + [e],
        if o < |boxes| then elements[o := elements[o].(texts := elements[o].texts + [e])] else elements)
  {
    var o := Owner(boxes, e);
    var elements' := if o < |boxes| then elements[o := elements[o].(texts := elements[o].texts + [e])] else elements;
    forall j | 0 <= j < |boxes|
      ensures elements'[j] == Element(boxes[j].labelText, boxes[j].bbox, Routed(done + [e], boxes, j), None)
    {
      RoutedSnoc(done, boxes, e, j);
    }
  }

  /**
   * The inner scan of `attach_text_to_elements` for one entry: append it to the
   * first element whose box contains its centroid, else to `unassigned`.
   */
  method PlaceEntry(elements: seq<Element>, unassigned: seq<OcrEntry>, entry: OcrEntry)
    returns (elements': seq<Element>, unassigned': seq<OcrEntry>)
    ensures var o := FirstContaining(Boxes(elements), Centroid(entry.polygon));
      && elements' == (if o < |elements| then elements[o := elements[o].(texts := elements[o].texts + [entry])] else elements)
      && unassigned' == (if o < |elements| then unassigned else unassigned + [entry])
  {
    var c := Centroid(entry.polygon);
    elements', unassigned' := elements, unassigned;
    var placed := false;
    var k := 0;
    while k < |elements|
      invariant 0 <= k <= |elements| && !placed && elements' == elements
      invariant forall t :: 0 <= t < k ==> !Contains(elements[t].bbox, c)
    {
      if Contains(elements[k].bbox, c) {
        elements' := elements[k := elements[k].(texts := elements[k].texts + [entry])];
        placed := true;
        break;
      }
      k := k + 1;
    }
    if !placed {
      unassigned' := unassigned + [entry];
    }
    assert FirstContaining(Boxes(elements), c) == k;
  }

  method AttachTextToElements(det: Detection, ocr: seq<OcrEntry>) returns (layout: Layout)
    ensures layout.imagePath == det.imagePath && layout.imageSize == det.imageSize
    ensures layout.bboxFormat == (if det.bboxFormat.Some? then det.bboxFormat.value else DefaultBBoxFormat)
    ensures layout.elements == Attached(det.boxes, ocr)
    ensures layout.unassigned == Routed(ocr, det.boxes, |det.boxes|)
    ensures TextBag(layout.elements) + multiset(layout.unassigned) == multiset(ocr)
  {
    var boxes := det.boxes;
    var n := |boxes|;
    var elements := Copies(boxes);
    var unassigned := [];
    CopiesHoldNoText(boxes);
    var i := 0;
    ghost var done: seq<OcrEntry> := [];
    while i < |ocr|
      invariant 0 <= i <= |ocr| && done == ocr[..i]
      invariant Routing(boxes, done, elements, unassigned)
    {
      var entry := ocr[i];
      RoutingStep(boxes, done, elements, unassigned, entry);
      elements, unassigned := PlaceEntry(elements, unassigned, entry);
      TakeOneMore(ocr, i);
      done := done + [entry];
      i := i + 1;
    }
    assert ocr[..|ocr|] == ocr;
    layout := Layout(det.imagePath, det.imageSize,
                     if det.bboxFormat.Some? then det.bboxFormat.value else DefaultBBoxFormat,
                     elements, unassigned);
  }

  lemma AttachedTextsInside(boxes: seq<DetectedBox>, entries: seq<OcrEntry>)
    ensures TextsInside(Attached(boxes, entries))
  {
    var els := Attached(boxes, entries);
    forall k, e | 0 <= k < |els| && e in els[k].texts ensures Contains(els[k].bbox, Centroid(e.polygon)) {
      AttachedExactly(entries, boxes, k, e);
    }
  }
}
