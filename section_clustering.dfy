/**
 * Row clustering in `add_section_ordering` (layout_flow.py). The elements are
 * visited in (centre y, centre x) order. Each one joins the first section whose
 * running mean centre y lies within `gap` of its own centre y, or else founds a
 * new section at the end of the list.
 */
module SectionClustering {
  import opened Geometry
  import opened LayoutModel

  /**
   * A section: `cy` is the mean of the members' centre ys `cys`, and `items`
   * are the members as positions in the sorted element list, in joining order.
   */
  datatype Section = Section(cy: real, cys: seq<real>, items: seq<nat>)

  /** Left-to-right sum, as Python's `sum`. */
  function Sum(xs: seq<real>): real
  {
    if xs == [] then 0.0 else Sum(xs[..|xs| - 1]) + xs[|xs| - 1]
  }

  function Mean(xs: seq<real>): (m: real)
    requires xs != []
    ensures m * (|xs| as real) == Sum(xs)
  {
    Sum(xs) / (|xs| as real)
  }

  function Abs(x: real): (r: real)
    ensures r >= 0.0 && (r == x || r == -x)
  {
    if x < 0.0 then -x else x
  }

  /** The joining test `abs(section["cy"] - cy) <= gap`; the bound is inclusive. */
  predicate Near(sectionCy: real, cy: real, gap: real)
  {
    Abs(sectionCy - cy) <= gap
  }

  /** The centre y of every element, in list order. */
  function CentreYs(els: seq<Element>): (r: seq<real>)
    ensures |r| == |els|
    ensures forall k :: 0 <= k < |els| ==> r[k] == CentreY(els[k].bbox)
  {
    seq(|els|, k requires 0 <= k < |els| => CentreY(els[k].bbox))
  }

  /** The first section near `cy`, or `|sections|` when there is none. */
  function FirstNear(sections: seq<Section>, cy: real, gap: real): (r: nat)
    ensures r <= |sections|
    ensures r < |sections| ==> Near(sections[r].cy, cy, gap)
    ensures forall t :: 0 <= t < r ==> !Near(sections[t].cy, cy, gap)
  {
    if sections == [] then 0
    else if Near(sections[0].cy, cy, gap) then 0
    else 1 + FirstNear(sections[1..], cy, gap)
  }

  /** Element `k` with centre y `cy` joins section `s`; the section's mean is recomputed. */
  function Join(s: Section, cy: real, k: nat): Section
  {
    Section(Mean(s.cys + [cy]), s.cys + [cy], s.items + [k])
  }

  /** The section founded by element `k`. */
  function Found(cy: real, k: nat): Section
  {
    Section(cy, [cy], [k])
  }

  /** One step of the clustering loop: element `k` joins the first near section, or founds one. */
  function Place(sections: seq<Section>, cy: real, k: nat, gap: real): (r: seq<Section>)
    ensures |sections| <= |r| <= |sections| + 1
    ensures r != []
  {
    var t := FirstNear(sections, cy, gap);
    if t < |sections| then sections[t := Join(sections[t], cy, k)] else sections + [Found(cy, k)]
  }

  /**
   * The sections after visiting every element, given their centre ys in
   * visiting order: there are at most as many as elements, and at least one
   * when there is an element.
   */
  function Cluster(cys: seq<real>, gap: real): (r: seq<Section>)
    ensures |r| <= |cys|
    ensures cys != [] ==> r != []
  {
    if cys == [] then [] else Place(Cluster(cys[..|cys| - 1], gap), cys[|cys| - 1], |cys| - 1, gap)
  }

  /**
   * A section records its members faithfully: it is not empty, each recorded
   * centre y is that member's, `cy` is their mean, and members are in list order.
   */
  ghost predicate Faithful(sec: Section, cys: seq<real>)
  {
    && sec.items != [] && |sec.cys| == |sec.items|
    && sec.cy == Mean(sec.cys)
    && (forall m :: 0 <= m < |sec.items| ==> sec.items[m] < |cys| && sec.cys[m] == cys[sec.items[m]])
    && (forall a, b :: 0 <= a < b < |sec.items| ==> sec.items[a] < sec.items[b])
  }

  predicate InSection(sec: Section, k: nat)
  {
    k in sec.items
  }

  ghost predicate Covered(sections: seq<Section>, k: nat)
  {
    exists s :: 0 <= s < |sections| && InSection(sections[s], k)
  }

  /** Every element belongs to exactly one section. */
  ghost predicate Partition(sections: seq<Section>, n: nat)
  {
    && (forall k :: 0 <= k < n ==> Covered(sections, k))
    && (forall s, u, k :: 0 <= s < u < |sections| && InSection(sections[s], k) ==> !InSection(sections[u], k))
  }

  /** Sections are numbered in the order their first members were visited. */
  ghost predicate FoundedInOrder(sections: seq<Section>)
  {
    forall s, u :: 0 <= s < u < |sections| && sections[s].items != [] && sections[u].items != [] ==>
      sections[s].items[0] < sections[u].items[0]
  }

  ghost predicate WellFormed(sections: seq<Section>, cys: seq<real>)
  {
    && (forall s :: 0 <= s < |sections| ==> Faithful(sections[s], cys))
    && Partition(sections, |cys|)
    && FoundedInOrder(sections)
  }

  /** The clustering of any list is well formed. */
  lemma {:induction false} ClusterWellFormed(cys: seq<real>, gap: real)
    ensures WellFormed(Cluster(cys, gap), cys)
    decreases |cys|
  {
    if cys != [] {
      var init := cys[..|cys| - 1];
      ClusterWellFormed(init, gap);
      assert cys == init + [cys[|cys| - 1]];
      PlaceKeepsWellFormed(Cluster(init, gap), init, cys[|cys| - 1], gap);
    }
  }

  lemma PlaceKeepsWellFormed(sections: seq<Section>, cys: seq<real>, c: real, gap: real)
    requires WellFormed(sections, cys)
    ensures WellFormed(Place(sections, c, |cys|, gap), cys + [c])
  {
    var n := |cys|;
    var t := FirstNear(sections, c, gap);
    var r := Place(sections, c, n, gap);
    forall s | 0 <= s < |sections|
      ensures Faithful(sections[s], cys + [c])
      ensures forall m :: 0 <= m < |sections[s].items| ==> sections[s].items[m] < n
    {
      FaithfulExtends(sections[s], cys, c);
    }
    forall s | 0 <= s < |r|
      ensures Faithful(r[s], cys + [c])
    {
      if s == t && t < |sections| {
        JoinFaithful(sections[t], cys + [c], n);
      } else if s == |sections| {
        FoundFaithful(c, cys + [c], n);
      }
    }
    PlaceKeepsPartition(sections, cys, c, gap);
  }

  lemma PlaceKeepsPartition(sections: seq<Section>, cys: seq<real>, c: real, gap: real)
    requires Partition(sections, |cys|) && FoundedInOrder(sections)
    requires forall s :: 0 <= s < |sections| ==> sections[s].items != []
    requires forall s, m :: 0 <= s < |sections| && 0 <= m < |sections[s].items| ==> sections[s].items[m] < |cys|
    ensures Partition(Place(sections, c, |cys|, gap), |cys| + 1)
    ensures FoundedInOrder(Place(sections, c, |cys|, gap))
  {
    var n := |cys|;
    var t := FirstNear(sections, c, gap);
    var r := Place(sections, c, n, gap);
    if t < |sections| {
      JoinKeepsPartition(sections, n, t, r);
    } else {
      FoundKeepsPartition(sections, n, r);
    }
  }

  /** Appending `n` to the members of section `t` keeps the partition, now of `n + 1` elements. */
  lemma JoinKeepsPartition(sections: seq<Section>, n: nat, t: nat, r: seq<Section>)
    requires Partition(sections, n) && FoundedInOrder(sections) && t < |sections|
    requires forall s :: 0 <= s < |sections| ==> sections[s].items != []
    requires forall s, m :: 0 <= s < |sections| && 0 <= m < |sections[s].items| ==> sections[s].items[m] < n
    requires |r| == |sections| && r[t].items == sections[t].items + [n]
    requires forall s :: 0 <= s < |r| && s != t ==> r[s].items == sections[s].items
    ensures Partition(r, n + 1) && FoundedInOrder(r)
  {
    forall k | 0 <= k < n + 1 ensures Covered(r, k) {
      if k == n {
        assert InSection(r[t], k);
      } else {
        assert Covered(sections, k);
        var s :| 0 <= s < |sections| && InSection(sections[s], k);
        assert InSection(r[s], k);
      }
    }
    forall s, u, k | 0 <= s < u < |r| && InSection(r[s], k) ensures !InSection(r[u], k) {
      if k == n {
        assert !InSection(sections[s], n) && !InSection(sections[u], n);
      } else {
        assert InSection(sections[s], k);
      }
    }
    forall s, u | 0 <= s < u < |r| && r[s].items != [] && r[u].items != []
      ensures r[s].items[0] < r[u].items[0]
    {
      assert r[s].items[0] == sections[s].items[0] && r[u].items[0] == sections[u].items[0];
    }
  }

  /** A new last section holding only `n` keeps the partition, now of `n + 1` elements. */
  lemma FoundKeepsPartition(sections: seq<Section>, n: nat, r: seq<Section>)
    requires Partition(sections, n) && FoundedInOrder(sections)
    requires forall s, m :: 0 <= s < |sections| && 0 <= m < |sections[s].items| ==> sections[s].items[m] < n
    requires |r| == |sections| + 1 && r[..|sections|] == sections && r[|sections|].items == [n]
    ensures Partition(r, n + 1) && FoundedInOrder(r)
  {
    assert forall s :: 0 <= s < |sections| ==> r[s] == sections[s];
    forall k | 0 <= k < n + 1 ensures Covered(r, k) {
      if k == n {
        assert InSection(r[|sections|], k);
      } else {
        assert Covered(sections, k);
        var s :| 0 <= s < |sections| && InSection(sections[s], k);
        assert InSection(r[s], k);
      }
    }
  }

  lemma FaithfulExtends(sec: Section, cys: seq<real>, c: real)
    requires Faithful(sec, cys)
    ensures Faithful(sec, cys + [c])
    ensures forall m :: 0 <= m < |sec.items| ==> sec.items[m] < |cys|
  {
  }

  lemma JoinFaithful(sec: Section, cys: seq<real>, k: nat)
    requires Faithful(sec, cys) && k < |cys|
    requires forall m :: 0 <= m < |sec.items| ==> sec.items[m] < k
    ensures Faithful(Join(sec, cys[k], k), cys)
  {
  }

  lemma FoundFaithful(c: real, cys: seq<real>, k: nat)
    requires k < |cys| && cys[k] == c
    ensures Faithful(Found(c, k), cys)
  {
    assert [c][..0] == [];
    assert Sum([c]) == c;
  }

  /**
   * Two elements share a section exactly when their centre ys are at most `gap`
   * apart: the joining bound is inclusive.
   */
  lemma TwoRows(a: real, b: real, gap: real)
    ensures |Cluster([a, b], gap)| == 1 <==> Near(a, b, gap)
  {
    assert [a, b][..1] == [a];
    assert [a][..0] == [];
  }

  /**
   * Element `k` founds a new section exactly when no section built from the
   * elements before it has a mean within `gap` of its centre y; otherwise it
   * joins the first such section and the number of sections stays the same.
   */
  lemma FoundsExactly(cys: seq<real>, k: nat, gap: real)
    requires k < |cys|
    ensures var before, after := Cluster(cys[..k], gap), Cluster(cys[..k + 1], gap);
      && (|after| == |before| + 1 <==> forall t :: 0 <= t < |before| ==> !Near(before[t].cy, cys[k], gap))
      && (|after| == |before| + 1 ==> after[|before|] == Found(cys[k], k))
      && (|after| == |before| ==> var t := FirstNear(before, cys[k], gap);
            t < |before| && after == before[t := Join(before[t], cys[k], k)])
  {
    assert cys[..k + 1][..k] == cys[..k];
  }

  /**
   * The inner scan of the clustering loop: element `k` joins the first section
   * near `cy`, whose mean is then recomputed, or else founds a new last section.
   */
  method JoinFirstNear(sections: seq<Section>, cy: real, k: nat, gap: real) returns (sections': seq<Section>)
    ensures sections' == Place(sections, cy, k, gap)
  {
    sections' := sections;
    var placed := false;
    var t := 0;
    while t < |sections|
      invariant t <= |sections| && !placed && sections' == sections
      invariant forall u :: 0 <= u < t ==> !Near(sections[u].cy, cy, gap)
    {
      if Abs(sections[t].cy - cy) <= gap {
        var members := sections[t].cys + [cy];
        sections' := sections[t := Section(Sum(members) / (|members| as real), members, sections[t].items + [k])];
        placed := true;
        break;
      }
      t := t + 1;
    }
    if !placed {
      sections' := sections + [Section(cy, [cy], [k])];
    }
    assert FirstNear(sections, cy, gap) == t;
  }

  /** The clustering loop of `add_section_ordering` over the sorted elements. */
  method ClusterRows(sorted: seq<Element>, gap: real) returns (sections: seq<Section>)
    ensures sections == Cluster(CentreYs(sorted), gap)
  {
    ghost var cys := CentreYs(sorted);
    sections := [];
    for k := 0 to |sorted|
      invariant sections == Cluster(cys[..k], gap)
    {
      sections := JoinFirstNear(sections, CentreY(sorted[k].bbox), k, gap);
      assert cys[..k + 1][..k] == cys[..k];
    }
    assert cys[..|sorted|] == cys;
  }
}
