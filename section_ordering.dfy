/**
 * `add_section_ordering` (layout_flow.py): sort the elements by (centre y,
 * centre x), cluster them into row sections, sort each section by centre x and
 * stamp every element with its section index and its order in the section.
 * The result is the (centre y, centre x)-sorted list, not the section order.
 */
module SectionOrdering {
  import opened Wrappers
  import opened Geometry
  import opened StableSort
  import opened LayoutModel
  import opened SectionClustering

  /** The default row gap of `add_section_ordering`, in normalized units. */
  const DefaultGap: real := 0.08

  /** The sort key of the whole list: the tuple (centre y, centre x). */
  function CentreKey(e: Element): Key
  {
    Key(CentreY(e.bbox), CentreX(e.bbox))
  }

  /** The sort key inside a section: centre x alone. */
  function CentreXKey(e: Element): Key
  {
    Key(CentreX(e.bbox), 0.0)
  }

  /** The within-section key of a member, given as a position in `sorted`. */
  function MemberKey(sorted: seq<Element>): nat -> Key
  {
    (k: nat) => if k < |sorted| then CentreXKey(sorted[k]) else Key(0.0, 0.0)
  }

  /**
   * Every element carries a placement that names a section holding it, with an
   * order below that section's size; every (section, order) pair is used.
   */
  ghost predicate Stamped(result: seq<Element>, sections: seq<Section>)
  {
    && (forall k :: 0 <= k < |result| ==>
          && result[k].placement.Some?
          && result[k].placement.value.sectionIndex < |sections|
          && InSection(sections[result[k].placement.value.sectionIndex], k)
          && result[k].placement.value.orderInSection < |sections[result[k].placement.value.sectionIndex].items|)
    && (forall s, o :: 0 <= s < |sections| && 0 <= o < |sections[s].items| ==>
          exists k :: 0 <= k < |result| && result[k].placement == Some(Placement(s, o)))
  }

  /**
   * Within a section, order follows centre x, and equal centre xs keep their
   * order in the list.
   */
  ghost predicate OrderedByCentreX(result: seq<Element>)
  {
    forall a, b ::
      (&& 0 <= a < |result| && 0 <= b < |result| && a != b
       && result[a].placement.Some? && result[b].placement.Some?
       && result[a].placement.value.sectionIndex == result[b].placement.value.sectionIndex) ==>
        (result[a].placement.value.orderInSection < result[b].placement.value.orderInSection <==>
           Precedes(CentreXKey(result[a]), a, CentreXKey(result[b]), b))
  }

  /** `ys` lists the members `items` of one section in within-section order. */
  ghost predicate Ranked(sorted: seq<Element>, items: seq<nat>, ys: seq<nat>)
  {
    && |ys| == |items|
    && (forall o :: 0 <= o < |ys| ==> ys[o] in items)
    && (forall m :: 0 <= m < |items| ==> items[m] in ys)
    && (forall a, b :: 0 <= a < b < |ys| ==>
          Precedes(MemberKey(sorted)(ys[a]), ys[a], MemberKey(sorted)(ys[b]), ys[b]))
  }

  /** The members `ys` of section `s` carry their positions in `ys` as their order. */
  ghost predicate StampedAs(result: seq<Element>, s: nat, ys: seq<nat>)
  {
    forall o :: 0 <= o < |ys| ==> ys[o] < |result| && result[ys[o]].placement == Some(Placement(s, o))
  }

  ghost predicate SameContents(result: seq<Element>, sorted: seq<Element>)
  {
    |result| == |sorted| && forall k :: 0 <= k < |sorted| ==> SameContent(result[k], sorted[k])
  }

  /**
   * Sorting a section's members stably by centre x ranks them: since members
   * are listed in increasing position, input order is position order.
   */
  lemma SortRanks(sorted: seq<Element>, items: seq<nat>, ys: seq<nat>, origin: seq<nat>)
    requires IsStableSortOf(items, MemberKey(sorted), ys, origin)
    requires forall a, b :: 0 <= a < b < |items| ==> items[a] < items[b]
    ensures Ranked(sorted, items, ys)
  {
    forall m | 0 <= m < |items| ensures items[m] in ys {
      assert m in origin;
      var o :| 0 <= o < |origin| && origin[o] == m;
      assert ys[o] == items[m];
    }
    forall a, b | 0 <= a < b < |ys|
      ensures Precedes(MemberKey(sorted)(ys[a]), ys[a], MemberKey(sorted)(ys[b]), ys[b])
    {
      assert Precedes(MemberKey(sorted)(ys[a]), origin[a], MemberKey(sorted)(ys[b]), origin[b]);
      assert origin[a] < origin[b] <==> ys[a] < ys[b];
    }
  }

  /** Ranked members are distinct. */
  lemma RankedDistinct(sorted: seq<Element>, items: seq<nat>, ys: seq<nat>)
    requires Ranked(sorted, items, ys)
    ensures forall a, b :: 0 <= a < |ys| && 0 <= b < |ys| && a != b ==> ys[a] != ys[b]
  {
  }

  /** The members of a later section are in no earlier section's ranking. */
  lemma OthersDisjoint(sorted: seq<Element>, sections: seq<Section>, orders: seq<seq<nat>>, s: nat, ys: seq<nat>)
    requires WellFormed(sections, CentreYs(sorted)) && s < |sections| && |orders| == s
    requires forall u :: 0 <= u < s ==> Ranked(sorted, sections[u].items, orders[u])
    requires Ranked(sorted, sections[s].items, ys)
    ensures forall o, u :: 0 <= o < |ys| && 0 <= u < s ==> ys[o] !in orders[u]
  {
    forall o, u | 0 <= o < |ys| && 0 <= u < s ensures ys[o] !in orders[u] {
      assert InSection(sections[s], ys[o]);
      if ys[o] in orders[u] {
        assert InSection(sections[u], ys[o]);
      }
    }
  }

  /**
   * Writes section `s` and order `o` onto the element at position `ys[o]`, for
   * each `o`; elements outside `ys` and everything but placements are unchanged.
   */
  method StampRanking(result: seq<Element>, s: nat, ys: seq<nat>) returns (result': seq<Element>)
    requires forall o :: 0 <= o < |ys| ==> ys[o] < |result|
    requires forall a, b :: 0 <= a < |ys| && 0 <= b < |ys| && a != b ==> ys[a] != ys[b]
    ensures |result'| == |result| && StampedAs(result', s, ys)
    ensures forall k :: 0 <= k < |result| ==> SameContent(result'[k], result[k])
    ensures forall k :: 0 <= k < |result| && k !in ys ==> result'[k] == result[k]
  {
    result' := result;
    for o := 0 to |ys|
      invariant |result'| == |result| && StampedAs(result', s, ys[..o])
      invariant forall k :: 0 <= k < |result| ==> SameContent(result'[k], result[k])
      invariant forall k :: 0 <= k < |result| && k !in ys[..o] ==> result'[k] == result[k]
    {
      result' := result'[ys[o] := result'[ys[o]].(placement := Some(Placement(s, o)))];
      assert ys[..o + 1] == ys[..o] + [ys[o]];
    }
    assert ys[..|ys|] == ys;
  }

  /** Stamping the members of a later section leaves every earlier ranking stamped. */
  lemma OthersStillStamped(before: seq<Element>, after: seq<Element>, orders: seq<seq<nat>>, ys: seq<nat>)
    requires |after| == |before|
    requires forall k :: 0 <= k < |before| && k !in ys ==> after[k] == before[k]
    requires forall u :: 0 <= u < |orders| ==> StampedAs(before, u, orders[u])
    requires forall o, u :: 0 <= o < |ys| && 0 <= u < |orders| ==> ys[o] !in orders[u]
    ensures forall u :: 0 <= u < |orders| ==> StampedAs(after, u, orders[u])
  {
    forall u, o | 0 <= u < |orders| && 0 <= o < |orders[u]|
      ensures orders[u][o] < |after| && after[orders[u][o]].placement == Some(Placement(u, o))
    {
      assert orders[u][o] !in ys;
    }
  }

  /** The state of the stamping loop once the sections ranked in `orders` are stamped. */
  ghost predicate StampProgress(result: seq<Element>, sorted: seq<Element>, sections: seq<Section>, orders: seq<seq<nat>>)
  {
    && WellFormed(sections, CentreYs(sorted))
    && SameContents(result, sorted) && |orders| <= |sections|
    && (forall u :: 0 <= u < |orders| ==> Ranked(sorted, sections[u].items, orders[u]))
    && (forall u :: 0 <= u < |orders| ==> StampedAs(result, u, orders[u]))
  }

  /** The stable sort of the next section ranks it and meets the needs of `StampRanking`. */
  lemma SectionRanking(result: seq<Element>, sorted: seq<Element>, sections: seq<Section>, orders: seq<seq<nat>>,
                       ys: seq<nat>, origin: seq<nat>)
    requires StampProgress(result, sorted, sections, orders) && |orders| < |sections|
    requires IsStableSortOf(sections[|orders|].items, MemberKey(sorted), ys, origin)
    ensures Ranked(sorted, sections[|orders|].items, ys)
    ensures forall o :: 0 <= o < |ys| ==> ys[o] < |result|
    ensures forall a, b :: 0 <= a < |ys| && 0 <= b < |ys| && a != b ==> ys[a] != ys[b]
    ensures forall o, u :: 0 <= o < |ys| && 0 <= u < |orders| ==> ys[o] !in orders[u]
  {
    var s := |orders|;
    assert Faithful(sections[s], CentreYs(sorted));
    SortRanks(sorted, sections[s].items, ys, origin);
    RankedDistinct(sorted, sections[s].items, ys);
    OthersDisjoint(sorted, sections, orders, s, ys);
  }

  lemma ProgressStep(before: seq<Element>, after: seq<Element>, sorted: seq<Element>, sections: seq<Section>,
                     orders: seq<seq<nat>>, ys: seq<nat>)
    requires StampProgress(before, sorted, sections, orders) && |orders| < |sections|
    requires Ranked(sorted, sections[|orders|].items, ys)
    requires forall o, u :: 0 <= o < |ys| && 0 <= u < |orders| ==> ys[o] !in orders[u]
    requires |after| == |before| && StampedAs(after, |orders|, ys)
    requires forall k :: 0 <= k < |before| ==> SameContent(after[k], before[k])
    requires forall k :: 0 <= k < |before| && k !in ys ==> after[k] == before[k]
    ensures StampProgress(after, sorted, sections, orders + [ys])
  {
    OthersStillStamped(before, after, orders, ys);
    var orders' := orders + [ys];
    assert SameContents(after, sorted) by {
      forall k | 0 <= k < |sorted| ensures SameContent(after[k], sorted[k]) {
        assert SameContent(after[k], before[k]) && SameContent(before[k], sorted[k]);
      }
    }
    forall u | 0 <= u < |orders'|
      ensures Ranked(sorted, sections[u].items, orders'[u]) && StampedAs(after, u, orders'[u])
    {
      if u < |orders| {
        assert orders'[u] == orders[u];
      } else {
        assert orders'[u] == ys;
      }
    }
  }

  /**
   * The stamping loop of `add_section_ordering`: for each section in turn,
   * sort its members by centre x and write their section index and order.
   */
  method StampSections(sorted: seq<Element>, sections: seq<Section>) returns (result: seq<Element>)
    requires WellFormed(sections, CentreYs(sorted))
    ensures SameContents(result, sorted)
    ensures Stamped(result, sections) && OrderedByCentreX(result)
  {
    result := sorted;
    ghost var orders: seq<seq<nat>> := [];
    for s := 0 to |sections|
      invariant |orders| == s && StampProgress(result, sorted, sections, orders)
    {
      var ys, origin := StableSortBy(sections[s].items, MemberKey(sorted));
      SectionRanking(result, sorted, sections, orders, ys, origin);
      ghost var before := result;
      result := StampRanking(result, s, ys);
      ProgressStep(before, result, sorted, sections, orders, ys);
      orders := orders + [ys];
    }
    RankingsStamp(result, sorted, sections, orders);
  }

  /** Rankings written for every section give the declared placement of every element. */
  lemma RankingsStamp(result: seq<Element>, sorted: seq<Element>, sections: seq<Section>, orders: seq<seq<nat>>)
    requires WellFormed(sections, CentreYs(sorted)) && SameContents(result, sorted)
    requires |orders| == |sections|
    requires forall u :: 0 <= u < |sections| ==> Ranked(sorted, sections[u].items, orders[u])
    requires forall u :: 0 <= u < |sections| ==> StampedAs(result, u, orders[u])
    ensures Stamped(result, sections) && OrderedByCentreX(result)
  {
    forall k | 0 <= k < |result|
      ensures result[k].placement.Some?
      ensures result[k].placement.value.sectionIndex < |sections|
      ensures InSection(sections[result[k].placement.value.sectionIndex], k)
      ensures result[k].placement.value.orderInSection < |sections[result[k].placement.value.sectionIndex].items|
    {
      var s, o := Locate(result, sorted, sections, orders, k);
    }
    forall s, o | 0 <= s < |sections| && 0 <= o < |sections[s].items|
      ensures exists k :: 0 <= k < |result| && result[k].placement == Some(Placement(s, o))
    {
      assert orders[s][o] < |result| && result[orders[s][o]].placement == Some(Placement(s, o));
    }
    forall a, b | 0 <= a < |result| && 0 <= b < |result| && a != b
      && result[a].placement.Some? && result[b].placement.Some?
      && result[a].placement.value.sectionIndex == result[b].placement.value.sectionIndex
      ensures result[a].placement.value.orderInSection < result[b].placement.value.orderInSection <==>
          Precedes(CentreXKey(result[a]), a, CentreXKey(result[b]), b)
    {
      RankedPair(result, sorted, sections, orders, a, b);
    }
  }

  /** Two members of one section are ordered as their ranking orders them. */
  lemma RankedPair(result: seq<Element>, sorted: seq<Element>, sections: seq<Section>, orders: seq<seq<nat>>, a: nat, b: nat)
    requires WellFormed(sections, CentreYs(sorted)) && SameContents(result, sorted)
    requires |orders| == |sections| && a < |result| && b < |result| && a != b
    requires forall u :: 0 <= u < |sections| ==> Ranked(sorted, sections[u].items, orders[u])
    requires forall u :: 0 <= u < |sections| ==> StampedAs(result, u, orders[u])
    requires result[a].placement.Some? && result[b].placement.Some?
    requires result[a].placement.value.sectionIndex == result[b].placement.value.sectionIndex
    ensures result[a].placement.value.orderInSection < result[b].placement.value.orderInSection <==>
      Precedes(CentreXKey(result[a]), a, CentreXKey(result[b]), b)
  {
    var s, oa := Locate(result, sorted, sections, orders, a);
    var s', ob := Locate(result, sorted, sections, orders, b);
    assert MemberKey(sorted)(a) == CentreXKey(result[a]);
    assert MemberKey(sorted)(b) == CentreXKey(result[b]);
    if oa < ob {
      assert Precedes(MemberKey(sorted)(orders[s][oa]), a, MemberKey(sorted)(orders[s][ob]), b);
    } else if ob < oa {
      assert Precedes(MemberKey(sorted)(orders[s][ob]), b, MemberKey(sorted)(orders[s][oa]), a);
    }
  }

  /** Where element `k` sits: its section and its position in that section's ranking. */
  lemma Locate(result: seq<Element>, sorted: seq<Element>, sections: seq<Section>, orders: seq<seq<nat>>, k: nat)
    returns (s: nat, o: nat)
    requires WellFormed(sections, CentreYs(sorted)) && SameContents(result, sorted)
    requires |orders| == |sections| && k < |result|
    requires forall u :: 0 <= u < |sections| ==> Ranked(sorted, sections[u].items, orders[u])
    requires forall u :: 0 <= u < |sections| ==> StampedAs(result, u, orders[u])
    ensures s < |sections| && o < |orders[s]| && orders[s][o] == k && InSection(sections[s], k)
    ensures result[k].placement == Some(Placement(s, o))
  {
    assert Covered(sections, k);
    s :| 0 <= s < |sections| && InSection(sections[s], k);
    o :| 0 <= o < |orders[s]| && orders[s][o] == k;
  }

  /** Erasing placements commutes with a stable sort on a key that ignores them. */
  lemma StrippedSort(xs: seq<Element>, ys: seq<Element>, origin: seq<nat>)
    requires IsStableSortOf(xs, CentreKey, ys, origin)
    ensures IsStableSortOf(Stripped(xs), CentreKey, Stripped(ys), origin)
  {
    var xs', ys' := Stripped(xs), Stripped(ys);
    assert forall k :: 0 <= k < |ys| ==> CentreKey(ys'[k]) == CentreKey(ys[k]);
    forall k | 0 <= k < |ys| ensures ys'[k] == xs'[origin[k]] {
      assert ys[k] == xs[origin[k]];
    }
  }

  lemma SameContentsAgree(result: seq<Element>, sorted: seq<Element>)
    requires SameContents(result, sorted)
    ensures Stripped(result) == Stripped(sorted)
    ensures CentreYs(result) == CentreYs(sorted)
    ensures TextBag(result) == TextBag(sorted)
  {
    TextBagSameTexts(result, sorted);
  }

  /**
   * `result` is a section ordering of `elements`: up to placements it is
   * `elements` stably sorted by (centre y, centre x), and it is stamped with
   * the clustering of that order, ranks following centre x.
   */
  ghost predicate IsSectionOrdering(elements: seq<Element>, result: seq<Element>, gap: real)
  {
    && (exists origin :: IsStableSortOf(Stripped(elements), CentreKey, Stripped(result), origin))
    && Stamped(result, Cluster(CentreYs(result), gap))
    && OrderedByCentreX(result)
  }

  /**
   * `add_section_ordering`: the elements sorted stably by (centre y, centre x),
   * each stamped with the section of the clustering of that order that holds
   * it and with its rank by centre x inside the section; an empty list is
   * returned as it is.
   */
  method AddSectionOrdering(elements: seq<Element>, gap: real) returns (result: seq<Element>)
    ensures elements == [] ==> result == []
    ensures IsSectionOrdering(elements, result, gap)
    ensures TextBag(result) == TextBag(elements)
  {
    if |elements| == 0 {
      assert IsStableSortOf(Stripped(elements), CentreKey, Stripped(elements), []);
      return elements;
    }
    var sorted, origin := StableSortBy(elements, CentreKey);
    var sections := ClusterRows(sorted, gap);
    ClusterWellFormed(CentreYs(sorted), gap);
    result := StampSections(sorted, sections);
    SameContentsAgree(result, sorted);
    StrippedSort(elements, sorted, origin);
    TextBagPermutation(sorted, elements);
  }
}
