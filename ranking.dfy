/** Scores as numpy orders them, the zero-to-infinity remap of the nearest-
    neighbour relations, `argsort`, and the `[:100]` cut that follows it. */
module Ranking {
  import opened Generators

  /** A stored distance: a finite float or `np.inf`. */
  datatype Score = Fin(r: real) | Inf

  /** numpy's ascending order: `inf` after every finite value. */
  predicate Le(x: Score, y: Score) {
    y.Inf? || (x.Fin? && x.r <= y.r)
  }

  /** How many rows a nearest-neighbour relation keeps per reference entity. */
  const TopK: nat := 100

  /** One entry of `distance[distance == 0] = np.inf`. */
  function Remap(x: Score): (y: Score)
    ensures y != Fin(0.0)
    ensures y.Fin? ==> y == x
    ensures x == Fin(0.0) ==> y == Inf
    ensures x != Fin(0.0) ==> y == x
  {
    if x == Fin(0.0) then Inf else x
  }

  function RemapAll(s: seq<Score>): (r: seq<Score>)
    ensures |r| == |s|
    ensures forall k :: 0 <= k < |s| ==> r[k] == Remap(s[k])
  {
    seq(|s|, k requires 0 <= k < |s| => Remap(s[k]))
  }

  predicate Distinct(idx: seq<nat>) {
    forall i, j :: 0 <= i < j < |idx| ==> idx[i] != idx[j]
  }

  /** The indices in `idx` name scores in non-decreasing order. */
  predicate SortedBy(s: seq<Score>, idx: seq<nat>)
    requires IndicesBelow(idx, |s|)
  {
    forall i, j :: 0 <= i < j < |idx| ==> Le(s[idx[i]], s[idx[j]])
  }

  /** Inserts index `i` into the sorted index list `l`, after every index
      whose score is not greater. */
  function Insert(s: seq<Score>, i: nat, l: seq<nat>): (r: seq<nat>)
    requires i < |s| && IndicesBelow(l, |s|) && SortedBy(s, l)
    requires Distinct(l) && i !in l
    ensures |r| == |l| + 1
    ensures forall x :: x in r <==> x in l || x == i
    ensures IndicesBelow(r, |s|) && Distinct(r) && SortedBy(s, r)
    decreases |l|
  {
    if l == [] || !Le(s[l[0]], s[i]) then [i] + l
    else
      var rest := Insert(s, i, l[1..]);
      assert forall p :: 0 <= p < |rest| ==> rest[p] != l[0] && Le(s[l[0]], s[rest[p]]) by {
        forall p | 0 <= p < |rest| ensures rest[p] != l[0] && Le(s[l[0]], s[rest[p]]) {
          if rest[p] != i {
            assert rest[p] in l[1..];
            var q :| 0 <= q < |l[1..]| && l[1..][q] == rest[p];
            assert l[q + 1] == rest[p];
          }
        }
      }
      [l[0]] + rest
  }

  function ArgSortPrefix(s: seq<Score>, n: nat): (r: seq<nat>)
    requires n <= |s|
    ensures |r| == n
    ensures IndicesBelow(r, n) && Distinct(r) && SortedBy(s, r)
    ensures forall k :: 0 <= k < n ==> k in r
  {
    if n == 0 then []
    else
      var r := Insert(s, n - 1, ArgSortPrefix(s, n - 1));
      assert forall k :: 0 <= k < |r| ==> r[k] in r;
      r
  }

  /** `np.argsort(s)`: every index of `s` exactly once, in non-decreasing
      score order. The order among equal scores is not specified (numpy's
      default sort is not stable), and nothing below relies on it. */
  function ArgSort(s: seq<Score>): (r: seq<nat>)
    ensures |r| == |s|
    ensures IndicesBelow(r, |s|) && Distinct(r) && SortedBy(s, r)
    ensures forall k :: 0 <= k < |s| ==> k in r
  {
    ArgSortPrefix(s, |s|)
  }

  /** `np.argsort(s)[:100]`: the `min(100, |s|)` best candidates, distinct,
      in non-decreasing score order, and no candidate left out scores
      strictly lower than one kept. */
  function Select(s: seq<Score>): (sel: seq<nat>)
    ensures |sel| == Min(TopK, |s|)
    ensures IndicesBelow(sel, |s|) && Distinct(sel) && SortedBy(s, sel)
    ensures forall j, k :: 0 <= j < |s| && j !in sel && 0 <= k < |sel| ==> Le(s[sel[k]], s[j])
  {
    var r := ArgSort(s);
    var sel := r[..Min(TopK, |s|)];
    assert forall j :: 0 <= j < |s| && j !in sel ==> forall k :: 0 <= k < |sel| ==> Le(s[sel[k]], s[j]) by {
      forall j | 0 <= j < |s| && j !in sel
        ensures forall k :: 0 <= k < |sel| ==> Le(s[sel[k]], s[j])
      {
        assert j in r;
        var q :| 0 <= q < |r| && r[q] == j;
        assert q >= |sel|;
      }
    }
    sel
  }

  /** The candidates with a finite score. */
  function FiniteCandidates(s: seq<Score>): set<nat> {
    set j: nat | j < |s| && s[j].Fin?
  }

  /** An infinite score is selected only when fewer than `TopK` finite
      scores exist, and every finite candidate is selected before it. */
  lemma InfSelectedAfterAllFinite(s: seq<Score>, k: nat)
    requires k < |Select(s)| && s[Select(s)[k]] == Inf
    ensures |FiniteCandidates(s)| <= k < TopK
    ensures forall j :: 0 <= j < |s| && s[j].Fin? ==> j in Select(s)[..k]
  {
    var r := ArgSort(s);
    assert Select(s)[..k] == r[..k];
    forall j | 0 <= j < |s| && s[j].Fin? ensures j in r[..k] {
      assert j in r;
      var q :| 0 <= q < |r| && r[q] == j;
      assert q < k;
      assert r[..k][q] == j;
    }
    SubsetCard(FiniteCandidates(s), (set x | x in r[..k]));
    SeqSetCard(r[..k]);
  }

  /** When at most `TopK` finite scores exist, every one of them is selected. */
  lemma AllFiniteSelectedWhenFew(s: seq<Score>, j: nat)
    requires |FiniteCandidates(s)| <= TopK
    requires j < |s| && s[j].Fin?
    ensures j in Select(s)
  {
    var r := ArgSort(s);
    assert j in r;
    var q :| 0 <= q < |r| && r[q] == j;
    var prefix := r[..q + 1];
    forall x | x in prefix ensures x in FiniteCandidates(s) {
      var i :| 0 <= i < |prefix| && prefix[i] == x;
      assert i == q || Le(s[r[i]], s[r[q]]);
    }
    DistinctCard(prefix);
    SubsetCard((set x | x in prefix), FiniteCandidates(s));
    assert r[..Min(TopK, |s|)][q] == j;
  }

  /** With at most `TopK` candidates the cut keeps every one of them,
      whatever their scores. */
  lemma SelectKeepsAllWhenFew(s: seq<Score>, j: nat)
    requires |s| <= TopK && j < |s|
    ensures j in Select(s)
  {
    var r := ArgSort(s);
    assert r[..Min(TopK, |s|)] == r;
  }

  /** `Fin` of every weight, for sorting plain weights as scores. */
  function Fins(w: seq<real>): (s: seq<Score>)
    ensures |s| == |w|
    ensures forall k :: 0 <= k < |w| ==> s[k] == Fin(w[k])
  {
    seq(|w|, k requires 0 <= k < |w| => Fin(w[k]))
  }

  /** `s[::-1]`. */
  function Reverse<T>(s: seq<T>): (r: seq<T>)
    ensures |r| == |s|
    ensures forall k :: 0 <= k < |s| ==> r[k] == s[|s| - 1 - k]
  {
    seq(|s|, k requires 0 <= k < |s| => s[|s| - 1 - k])
  }

  /** Reversing an ascending index order gives a descending one. */
  lemma ReverseDescending(w: seq<real>, a: seq<nat>)
    requires IndicesBelow(a, |w|) && SortedBy(Fins(w), a)
    ensures forall i, j :: 0 <= i < j < |a| ==> w[Reverse(a)[i]] >= w[Reverse(a)[j]]
  {
    var s, r := Fins(w), Reverse(a);
    forall i, j | 0 <= i < j < |r| ensures w[r[i]] >= w[r[j]] {
      var i', j' := |a| - 1 - j, |a| - 1 - i;
      assert Le(s[a[i']], s[a[j']]);
    }
  }

  /** Reversing keeps every element. */
  lemma ReverseKeeps<T>(a: seq<T>, x: T)
    requires x in a
    ensures x in Reverse(a)
  {
    var p :| 0 <= p < |a| && a[p] == x;
    assert Reverse(a)[|a| - 1 - p] == x;
  }

  /** `argsort(w)[::-1]`: every column of `w` exactly once, in non-increasing
      weight order. */
  function ArgSortDesc(w: seq<real>): (r: seq<nat>)
    ensures |r| == |w|
    ensures IndicesBelow(r, |w|) && Distinct(r)
    ensures forall k :: 0 <= k < |w| ==> k in r
    ensures forall i, j :: 0 <= i < j < |r| ==> w[r[i]] >= w[r[j]]
  {
    var a := ArgSort(Fins(w));
    ReverseDescending(w, a);
    forall k: nat | k < |w| ensures k in Reverse(a) {
      assert k < |Fins(w)|;
      ReverseKeeps(a, k);
    }
    Reverse(a)
  }
}
