/**
 * `build_layout` (layout_flow.py): attach the OCR text to the detected
 * elements, then order the elements into sections with the default gap. The
 * detector and the OCR engine are outside the model; their results are the
 * parameters `det` and `ocr`.
 */
module LayoutBuilder {
  import opened Geometry
  import opened StableSort
  import opened LayoutModel
  import opened TextAttachment
  import opened SectionClustering
  import opened SectionOrdering

  /** A stable sort whose output has the placements erased still holds each element's box and texts. */
  lemma SortKeepsTextsInside(xs: seq<Element>, ys: seq<Element>, origin: seq<nat>)
    requires IsStableSortOf(xs, CentreKey, Stripped(ys), origin)
    requires TextsInside(xs)
    ensures TextsInside(ys)
  {
    forall k, e | 0 <= k < |ys| && e in ys[k].texts ensures Contains(ys[k].bbox, Centroid(e.polygon)) {
      assert Stripped(ys)[k] == xs[origin[k]];
    }
  }

  lemma AttachedUnplaced(boxes: seq<DetectedBox>, entries: seq<OcrEntry>)
    ensures Stripped(Attached(boxes, entries)) == Attached(boxes, entries)
  {
  }

  /**
   * The layout of one page: image fields from the detector with the box
   * format defaulted, every OCR entry either in exactly the texts of the first
   * element whose box holds its centroid or in `unassigned`, and the elements
   * stably sorted by centre and stamped with their sections.
   */
  ghost predicate IsBuiltLayout(det: Detection, ocr: seq<OcrEntry>, layout: Layout)
  {
    && layout.imagePath == det.imagePath && layout.imageSize == det.imageSize
    && layout.bboxFormat == (if det.bboxFormat.Some? then det.bboxFormat.value else DefaultBBoxFormat)
    && layout.unassigned == Routed(ocr, det.boxes, |det.boxes|)
    && TextBag(layout.elements) + multiset(layout.unassigned) == multiset(ocr)
    && (exists origin :: IsStableSortOf(Attached(det.boxes, ocr), CentreKey, Stripped(layout.elements), origin))
    && TextsInside(layout.elements)
    && Stamped(layout.elements, Cluster(CentreYs(layout.elements), DefaultGap))
    && OrderedByCentreX(layout.elements)
  }

  method BuildLayout(det: Detection, ocr: seq<OcrEntry>) returns (layout: Layout)
    ensures IsBuiltLayout(det, ocr, layout)
  {
    layout := AttachTextToElements(det, ocr);
    var ordered := AddSectionOrdering(layout.elements, DefaultGap);
    AttachedUnplaced(det.boxes, ocr);
    AttachedTextsInside(det.boxes, ocr);
    ghost var origin :| IsStableSortOf(Attached(det.boxes, ocr), CentreKey, Stripped(ordered), origin);
    SortKeepsTextsInside(Attached(det.boxes, ocr), ordered, origin);
    layout := layout.(elements := ordered);
  }
}
