/**
 * The section ordering of `add_section_ordering` (layout_flow.py) is fully
 * determined by its description: the stable sort fixes the element order, the
 * clustering of that order fixes the sections, and ranking by centre x fixes
 * the orders inside each section. So running the ordering again on its own
 * result gives that result back.
 */
module OrderingDeterminism {
  import opened Wrappers
  import opened StableSort
  import opened LayoutModel
  import opened SectionClustering
  import opened SectionOrdering

  function SectionOf(e: Element): nat
  {
    if e.placement.Some? then e.placement.value.sectionIndex else 0
  }

  function OrderOf(e: Element): nat
  {
    if e.placement.Some? then e.placement.value.orderInSection else 0
  }

  /**
   * Two lists holding the same elements up to placement, both stamped with the
   * same partition into sections and ranked by centre x.
   */
  ghost predicate Rivals(r1: seq<Element>, r2: seq<Element>, sections: seq<Section>)
  {
    && Stripped(r1) == Stripped(r2) && Partition(sections, |r1|)
    && Stamped(r1, sections) && OrderedByCentreX(r1)
    && Stamped(r2, sections) && OrderedByCentreX(r2)
  }

  /** The orders of the two lists agree for every element whose order in either is below `v`. */
  ghost predicate AgreeBelow(r1: seq<Element>, r2: seq<Element>, v: nat)
  {
    && |r1| == |r2|
    && forall k :: 0 <= k < |r1| && (OrderOf(r1[k]) < v || OrderOf(r2[k]) < v) ==> OrderOf(r1[k]) == OrderOf(r2[k])
  }

  /** Every element sits in the one section of the partition that holds it, in both lists. */
  lemma SameSections(r1: seq<Element>, r2: seq<Element>, sections: seq<Section>)
    requires Rivals(r1, r2, sections)
    ensures |r1| == |r2|
    ensures forall k :: 0 <= k < |r1| ==> SectionOf(r1[k]) == SectionOf(r2[k])
  {
    assert |Stripped(r1)| == |Stripped(r2)|;
    forall k | 0 <= k < |r1| ensures SectionOf(r1[k]) == SectionOf(r2[k]) {
      var s1, s2 := SectionOf(r1[k]), SectionOf(r2[k]);
      assert InSection(sections[s1], k) && InSection(sections[s2], k);
    }
  }

  /**
   * Once orders below `v` agree, the element at order `v` in one list is at
   * order `v` in the other: the element there in the other list would have to
   * sit both before and after it.
   */
  lemma RankAgrees(r1: seq<Element>, r2: seq<Element>, sections: seq<Section>, v: nat, k: nat)
    requires Rivals(r1, r2, sections) && AgreeBelow(r1, r2, v)
    requires forall m :: 0 <= m < |r1| ==> SectionOf(r1[m]) == SectionOf(r2[m])
    requires k < |r1| && OrderOf(r1[k]) == v
    ensures OrderOf(r2[k]) == v
  {
    var s := SectionOf(r1[k]);
    assert exists m :: 0 <= m < |r2| && r2[m].placement == Some(Placement(s, v));
    var m :| 0 <= m < |r2| && r2[m].placement == Some(Placement(s, v));
    assert Stripped(r1)[k] == Stripped(r2)[k] && Stripped(r1)[m] == Stripped(r2)[m];
    assert CentreXKey(r1[k]) == CentreXKey(r2[k]) && CentreXKey(r1[m]) == CentreXKey(r2[m]);
    OrderedPair(r1, k, m);
    OrderedPair(r1, m, k);
    OrderedPair(r2, k, m);
    assert m == k;
  }

  /** Two distinct elements of one section are ordered by (centre x, list position). */
  lemma OrderedPair(r: seq<Element>, a: nat, b: nat)
    requires OrderedByCentreX(r) && a < |r| && b < |r|
    requires r[a].placement.Some? && r[b].placement.Some? && SectionOf(r[a]) == SectionOf(r[b])
    ensures a != b ==> (OrderOf(r[a]) < OrderOf(r[b]) <==> Precedes(CentreXKey(r[a]), a, CentreXKey(r[b]), b))
  {
  }

  lemma {:induction false} AgreeUpTo(r1: seq<Element>, r2: seq<Element>, sections: seq<Section>, v: nat)
    requires Rivals(r1, r2, sections)
    ensures AgreeBelow(r1, r2, v)
    decreases v
  {
    SameSections(r1, r2, sections);
    SameSections(r2, r1, sections);
    if v > 0 {
      AgreeUpTo(r1, r2, sections, v - 1);
      forall k | 0 <= k < |r1| && (OrderOf(r1[k]) < v || OrderOf(r2[k]) < v)
        ensures OrderOf(r1[k]) == OrderOf(r2[k])
      {
        if OrderOf(r1[k]) == v - 1 {
          RankAgrees(r1, r2, sections, v - 1, k);
        }
        if OrderOf(r2[k]) == v - 1 {
          RankAgrees(r2, r1, sections, v - 1, k);
        }
      }
    }
  }

  /** Stamps that satisfy the stamping rules for the same elements and sections are the same stamps. */
  lemma StampsDetermined(r1: seq<Element>, r2: seq<Element>, sections: seq<Section>)
    requires Rivals(r1, r2, sections)
    ensures r1 == r2
  {
    SameSections(r1, r2, sections);
    forall k | 0 <= k < |r1| ensures r1[k] == r2[k] {
      AgreeUpTo(r1, r2, sections, OrderOf(r1[k]) + 1);
      assert Stripped(r1)[k] == Stripped(r2)[k];
    }
  }

  /** Two results that both meet the description of `add_section_ordering` are equal. */
  lemma SectionOrderingUnique(elements: seq<Element>, r1: seq<Element>, r2: seq<Element>, gap: real)
    requires IsSectionOrdering(elements, r1, gap) && IsSectionOrdering(elements, r2, gap)
    ensures r1 == r2
  {
    var o1 :| IsStableSortOf(Stripped(elements), CentreKey, Stripped(r1), o1);
    var o2 :| IsStableSortOf(Stripped(elements), CentreKey, Stripped(r2), o2);
    StableSortUnique(Stripped(elements), CentreKey, Stripped(r1), o1, Stripped(r2), o2);
    SameCentreYs(r1, r2);
    var sections := Cluster(CentreYs(r1), gap);
    ClusterWellFormed(CentreYs(r1), gap);
    assert Rivals(r1, r2, sections);
    StampsDetermined(r1, r2, sections);
  }

  /** Lists equal up to placement have the same centre ys. */
  lemma SameCentreYs(r1: seq<Element>, r2: seq<Element>)
    requires Stripped(r1) == Stripped(r2)
    ensures CentreYs(r1) == CentreYs(r2)
  {
    assert |r1| == |Stripped(r1)| == |r2|;
    forall k | 0 <= k < |r1| ensures r1[k].bbox == r2[k].bbox {
      assert Stripped(r1)[k] == Stripped(r2)[k];
    }
  }

  /** Ordering an already ordered list again gives it back unchanged. */
  lemma SectionOrderingIdempotent(elements: seq<Element>, result: seq<Element>, again: seq<Element>, gap: real)
    requires IsSectionOrdering(elements, result, gap) && IsSectionOrdering(result, again, gap)
    ensures again == result
  {
    var origin :| IsStableSortOf(Stripped(elements), CentreKey, Stripped(result), origin);
    StableSortIsSorted(Stripped(elements), CentreKey, Stripped(result), origin);
    SortedIsOwnStableSort(Stripped(result), CentreKey);
    assert IsSectionOrdering(result, result, gap);
    SectionOrderingUnique(result, again, result, gap);
  }
}
