/**
 * The stable sort behind Python's `sorted(..., key=...)` and `list.sort(key=...)`
 * as used by the section clusterer. Keys are pairs compared lexicographically,
 * as Python compares the tuple `(cy, cx)`; a single-float key `cx` is the pair
 * `(cx, 0.0)`, which orders exactly as `cx` alone.
 */
module StableSort {

  datatype Key = Key(major: real, minor: real)

  predicate KeyLess(a: Key, b: Key)
  {
    a.major < b.major || (a.major == b.major && a.minor < b.minor)
  }

  predicate KeyAtMost(a: Key, b: Key)
  {
    !KeyLess(b, a)
  }

  /**
   * The strict order a stable sort produces: by key, and among equal keys by
   * position in the input.
   */
  predicate Precedes(ka: Key, ia: nat, kb: Key, ib: nat)
  {
    KeyLess(ka, kb) || (ka == kb && ia < ib)
  }

  /**
   * `ys` is `xs` stably sorted by `key`: `origin[k]` is the input position of
   * `ys[k]`, every input position occurs, and the output is strictly ordered by
   * (key, input position).
   */
  ghost predicate IsStableSortOf<T>(xs: seq<T>, key: T -> Key, ys: seq<T>, origin: seq<nat>)
  {
    && |ys| == |xs| && |origin| == |xs|
    && (forall k :: 0 <= k < |ys| ==> origin[k] < |xs| && ys[k] == xs[origin[k]])
    && (forall i :: 0 <= i < |xs| ==> i in origin)
    && (forall a, b :: 0 <= a < b < |ys| ==> Precedes(key(ys[a]), origin[a], key(ys[b]), origin[b]))
  }

  /** A stably sorted sequence is sorted: keys never decrease. */
  lemma StableSortIsSorted<T>(xs: seq<T>, key: T -> Key, ys: seq<T>, origin: seq<nat>)
    requires IsStableSortOf(xs, key, ys, origin)
    ensures forall a, b :: 0 <= a < b < |ys| ==> KeyAtMost(key(ys[a]), key(ys[b]))
  {
  }

  /** The loop state of the insertion sort after the first `i` inputs. */
  ghost predicate SortedPrefix<T>(xs: seq<T>, key: T -> Key, i: nat, ys: seq<T>, origin: seq<nat>)
  {
    && i <= |xs| && |ys| == i && |origin| == i
    && (forall k :: 0 <= k < i ==> origin[k] < i && ys[k] == xs[origin[k]])
    && (forall j :: 0 <= j < i ==> j in origin)
    && (forall a, b :: 0 <= a < b < i ==> Precedes(key(ys[a]), origin[a], key(ys[b]), origin[b]))
  }

  /** Inserting input `i` at a position `p` that splits the prefix by key keeps it stably sorted. */
  lemma InsertKeepsSorted<T>(xs: seq<T>, key: T -> Key, i: nat, ys: seq<T>, origin: seq<nat>, p: nat)
    requires i < |xs| && SortedPrefix(xs, key, i, ys, origin) && p <= i
    requires forall q :: 0 <= q < p ==> KeyAtMost(key(ys[q]), key(xs[i]))
    requires forall q :: p <= q < i ==> KeyLess(key(xs[i]), key(ys[q]))
    ensures SortedPrefix(xs, key, i + 1, ys[..p] + [xs[i]] + ys[p..], origin[..p] + [i] + origin[p..])
  {
    var ys' := ys[..p] + [xs[i]] + ys[p..];
    var origin' := origin[..p] + [i] + origin[p..];
    assert forall k :: 0 <= k < p ==> ys'[k] == ys[k] && origin'[k] == origin[k];
    assert ys'[p] == xs[i] && origin'[p] == i;
    assert forall k :: p < k <= i ==> ys'[k] == ys[k - 1] && origin'[k] == origin[k - 1];
    forall j | 0 <= j <= i ensures j in origin' {
      if j < i {
        assert j in origin;
        var k :| 0 <= k < |origin| && origin[k] == j;
        if k < p { assert origin'[k] == j; } else { assert origin'[k + 1] == j; }
      } else {
        assert origin'[p] == i;
      }
    }
    forall a, b | 0 <= a < b < i + 1
      ensures Precedes(key(ys'[a]), origin'[a], key(ys'[b]), origin'[b])
    {
      if b < p {
      } else if a < p && b == p {
      } else if a < p {
        assert Precedes(key(ys[a]), origin[a], key(ys[b - 1]), origin[b - 1]);
      } else if a == p {
      } else {
        assert Precedes(key(ys[a - 1]), origin[a - 1], key(ys[b - 1]), origin[b - 1]);
      }
    }
  }

  /** Where the backward scan stops, every earlier key is at most the new one. */
  lemma KeysUpToSplit<T>(xs: seq<T>, key: T -> Key, i: nat, ys: seq<T>, origin: seq<nat>, p: nat)
    requires i < |xs| && SortedPrefix(xs, key, i, ys, origin) && p <= i
    requires p > 0 ==> !KeyLess(key(xs[i]), key(ys[p - 1]))
    ensures forall q :: 0 <= q < p ==> KeyAtMost(key(ys[q]), key(xs[i]))
  {
    forall q | 0 <= q < p ensures KeyAtMost(key(ys[q]), key(xs[i])) {
      if q < p - 1 {
        assert Precedes(key(ys[q]), origin[q], key(ys[p - 1]), origin[p - 1]);
      }
    }
  }

  lemma InsertKeepsElements<T>(xs: seq<T>, i: nat, ys: seq<T>, p: nat)
    requires i < |xs| && p <= |ys| && multiset(ys) == multiset(xs[..i])
    ensures multiset(ys[..p] + [xs[i]] + ys[p..]) == multiset(xs[..i + 1])
  {
    assert ys == ys[..p] + ys[p..];
    assert xs[..i + 1] == xs[..i] + [xs[i]];
  }

  /** Insertion sort; each new element goes after every element whose key is not larger. */
  method StableSortBy<T(==)>(xs: seq<T>, key: T -> Key) returns (ys: seq<T>, origin: seq<nat>)
    ensures IsStableSortOf(xs, key, ys, origin)
    ensures multiset(ys) == multiset(xs)
  {
    ys, origin := [], [];
    var i := 0;
    while i < |xs|
      invariant 0 <= i <= |xs|
      invariant SortedPrefix(xs, key, i, ys, origin)
      invariant multiset(ys) == multiset(xs[..i])
    {
      var x := xs[i];
      var p := i;
      while p > 0 && KeyLess(key(x), key(ys[p - 1]))
        invariant 0 <= p <= i
        invariant forall q :: p <= q < i ==> KeyLess(key(x), key(ys[q]))
      {
        p := p - 1;
      }
      KeysUpToSplit(xs, key, i, ys, origin, p);
      InsertKeepsSorted(xs, key, i, ys, origin, p);
      InsertKeepsElements(xs, i, ys, p);
      ys := ys[..p] + [x] + ys[p..];
      origin := origin[..p] + [i] + origin[p..];
      i := i + 1;
    }
    assert xs[..i] == xs;
  }

  /** The positions `0, 1, ..., n - 1`. */
  function Positions(n: nat): (r: seq<nat>)
    ensures |r| == n && forall i :: 0 <= i < n ==> r[i] == i
  {
    if n == 0 then [] else Positions(n - 1) + [n - 1]
  }

  /** A sequence whose keys never decrease is its own stable sort, each item staying in place. */
  lemma SortedIsOwnStableSort<T>(xs: seq<T>, key: T -> Key)
    requires forall a, b :: 0 <= a < b < |xs| ==> KeyAtMost(key(xs[a]), key(xs[b]))
    ensures IsStableSortOf(xs, key, xs, Positions(|xs|))
  {
    var origin := Positions(|xs|);
    forall i | 0 <= i < |xs| ensures i in origin {
      assert origin[i] == i;
    }
  }

  /**
   * A stable sort is unique: two stable sorts of the same input by the same
   * key take every item from the same input position, so they are equal.
   */
  lemma StableSortUnique<T>(xs: seq<T>, key: T -> Key, ys1: seq<T>, origin1: seq<nat>, ys2: seq<T>, origin2: seq<nat>)
    requires IsStableSortOf(xs, key, ys1, origin1) && IsStableSortOf(xs, key, ys2, origin2)
    ensures origin1 == origin2 && ys1 == ys2
  {
    StableSortAgreesUpTo(xs, key, ys1, origin1, ys2, origin2, |xs|);
  }

  lemma {:induction false} StableSortAgreesUpTo<T>(xs: seq<T>, key: T -> Key, ys1: seq<T>, origin1: seq<nat>,
                                                 ys2: seq<T>, origin2: seq<nat>, v: nat)
    requires IsStableSortOf(xs, key, ys1, origin1) && IsStableSortOf(xs, key, ys2, origin2) && v <= |xs|
    ensures forall u :: 0 <= u < v ==> origin1[u] == origin2[u]
    decreases v
  {
    if v > 0 {
      StableSortAgreesUpTo(xs, key, ys1, origin1, ys2, origin2, v - 1);
      NextPositionAgrees(xs, key, ys1, origin1, ys2, origin2, v - 1);
    }
  }

  /**
   * Once two stable sorts agree below output position `w`, they agree at `w`:
   * the two items there would otherwise each have to precede the other.
   */
  lemma NextPositionAgrees<T>(xs: seq<T>, key: T -> Key, ys1: seq<T>, origin1: seq<nat>,
                              ys2: seq<T>, origin2: seq<nat>, w: nat)
    requires IsStableSortOf(xs, key, ys1, origin1) && IsStableSortOf(xs, key, ys2, origin2) && w < |xs|
    requires forall u :: 0 <= u < w ==> origin1[u] == origin2[u]
    ensures origin1[w] == origin2[w]
  {
    var i, j := origin1[w], origin2[w];
    assert j in origin1 && i in origin2;
    var p :| 0 <= p < |origin1| && origin1[p] == j;
    var q :| 0 <= q < |origin2| && origin2[q] == i;
    OrderedAt(xs, key, ys2, origin2, p, w);
    OrderedAt(xs, key, ys1, origin1, q, w);
    assert p >= w && q >= w;
    OrderedAt(xs, key, ys1, origin1, w, p);
    OrderedAt(xs, key, ys2, origin2, w, q);
  }

  lemma OrderedAt<T>(xs: seq<T>, key: T -> Key, ys: seq<T>, origin: seq<nat>, a: nat, b: nat)
    requires IsStableSortOf(xs, key, ys, origin) && a < |ys| && b < |ys|
    ensures a < b ==> Precedes(key(ys[a]), origin[a], key(ys[b]), origin[b])
  {
  }
}
