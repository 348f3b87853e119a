/**
 * The records that flow through layout fusion (layout_flow.py): the
 * detection result, the OCR entries, the annotated elements and the layout.
 */
module LayoutModel {
  import opened Wrappers
  import opened Geometry

  /** One OCR recognition result: the text and its polygon. */
  datatype OcrEntry = OcrEntry(text: string, polygon: seq<Point>)

  /** One detector element as delivered by the detection stage: its `label` key (a reserved word in Dafny, hence `labelText`) and its box. */
  datatype DetectedBox = DetectedBox(labelText: string, bbox: BBox)

  datatype ImageSize = ImageSize(width: int, height: int)

  /**
   * The detection record. The optional fields are the keys the source reads
   * with `dict.get`; a missing `elements` key is the empty sequence.
   */
  datatype Detection = Detection(
    imagePath: Option<string>,
    imageSize: Option<ImageSize>,
    bboxFormat: Option<string>,
    boxes: seq<DetectedBox>)

  /** The two keys the section clusterer stamps onto an element. */
  datatype Placement = Placement(sectionIndex: nat, orderInSection: nat)

  /** An element of the layout: a detector box with the texts attached to it. */
  datatype Element = Element(labelText: string, bbox: BBox, texts: seq<OcrEntry>, placement: Option<Placement>)

  datatype Layout = Layout(
    imagePath: Option<string>,
    imageSize: Option<ImageSize>,
    bboxFormat: string,
    elements: seq<Element>,
    unassigned: seq<OcrEntry>)

  const DefaultBBoxFormat: string := "normalized_xyxy"

  /** Label, box and texts agree: the elements differ at most in their placement. */
  predicate SameContent(a: Element, b: Element)
  {
    a.labelText == b.labelText && a.bbox == b.bbox && a.texts == b.texts
  }

  /** The elements with their placements erased. */
  function Stripped(els: seq<Element>): (r: seq<Element>)
    ensures |r| == |els|
    ensures forall k :: 0 <= k < |els| ==> r[k] == els[k].(placement := None)
  {
    seq(|els|, k requires 0 <= k < |els| => els[k].(placement := None))
  }

  /** Every OCR entry held by the elements, with multiplicity. */
  function TextBag(els: seq<Element>): multiset<OcrEntry>
  {
    if els == [] then multiset{} else TextBag(els[..|els| - 1]) + multiset(els[|els| - 1].texts)
  }

  lemma {:induction false} TextBagAppend(a: seq<Element>, b: seq<Element>)
    ensures TextBag(a + b) == TextBag(a) + TextBag(b)
    decreases |b|
  {
    if b != [] {
      var b' := b[..|b| - 1];
      assert (a + b)[..|a + b| - 1] == a + b';
      TextBagAppend(a, b');
    } else {
      assert a + b == a;
    }
  }

  /** Appending entry `e` to the texts of one element adds exactly `e` to the bag. */
  lemma {:induction false} TextBagAddText(els: seq<Element>, j: nat, e: OcrEntry)
    requires j < |els|
    ensures TextBag(els[j := els[j].(texts := els[j].texts + [e])]) == TextBag(els) + multiset{e}
  {
    var els' := els[j := els[j].(texts := els[j].texts + [e])];
    var front, back := els[..j], els[j + 1..];
    assert els == front + [els[j]] + back;
    assert els' == front + [els'[j]] + back;
    TextBagAppend(front + [els[j]], back);
    TextBagAppend(front + [els'[j]], back);
    TextBagAppend(front, [els[j]]);
    TextBagAppend(front, [els'[j]]);
    assert TextBag([els[j]]) == multiset(els[j].texts) by {
      assert [els[j]][..0] == [];
    }
    assert TextBag([els'[j]]) == multiset(els[j].texts + [e]) by {
      assert [els'[j]][..0] == [];
    }
  }

  /** The bag depends only on each element's texts. */
  lemma {:induction false} TextBagSameTexts(xs: seq<Element>, ys: seq<Element>)
    requires |xs| == |ys|
    requires forall k :: 0 <= k < |xs| ==> xs[k].texts == ys[k].texts
    ensures TextBag(xs) == TextBag(ys)
    decreases |xs|
  {
    if xs != [] {
      TextBagSameTexts(xs[..|xs| - 1], ys[..|ys| - 1]);
    }
  }

  lemma SplitAt<T>(ys: seq<T>, i: nat)
    requires i < |ys|
    ensures ys == ys[..i] + [ys[i]] + ys[i + 1..]
  {
  }

  /** Taking element `i` out removes exactly its texts from the bag. */
  lemma TextBagRemove(ys: seq<Element>, i: nat)
    requires i < |ys|
    ensures TextBag(ys) == TextBag(ys[..i] + ys[i + 1..]) + multiset(ys[i].texts)
  {
    var a, y, b := ys[..i], ys[i], ys[i + 1..];
    var ay := a + [y];
    SplitAt(ys, i);
    TextBagAppend(ay, b);
    assert ay[..|ay| - 1] == a;
    assert TextBag(ay) == TextBag(a) + multiset(y.texts);
    TextBagAppend(a, b);
  }

  lemma MultisetRemove(ys: seq<Element>, i: nat)
    requires i < |ys|
    ensures multiset(ys[..i] + ys[i + 1..]) == multiset(ys) - multiset{ys[i]}
  {
    SplitAt(ys, i);
  }

  /** Reordering the elements does not change the texts they hold. */
  lemma {:induction false} TextBagPermutation(xs: seq<Element>, ys: seq<Element>)
    requires multiset(xs) == multiset(ys)
    ensures TextBag(xs) == TextBag(ys)
    decreases |xs|
  {
    if xs != [] {
      var x := xs[|xs| - 1];
      var xs' := xs[..|xs| - 1];
      assert xs == xs' + [x];
      assert multiset(xs') == multiset(xs) - multiset{x};
      assert x in multiset(ys);
      var i :| 0 <= i < |ys| && ys[i] == x;
      MultisetRemove(ys, i);
      TextBagPermutation(xs', ys[..i] + ys[i + 1..]);
      TextBagRemove(ys, i);
    } else {
      assert ys == [];
    }
  }
}
