/** The top-100 nearest-neighbour relations `doc_doc` (`write_doc_doc`) and
    `term_term` (`write_term_term`). For every reference row `a` the candidate
    block is the rows from `a` on; its scores have exact zeros overwritten
    with infinity in place, are sorted with `argsort`, cut to the first 100,
    and zipped into `(a, local index, score)` rows. The stored second id is
    the index into the block, not the global row number. */
module Nearest {
  import opened Generators
  import opened Ranking
  import opened Rows

  /** The rows reference entity `a` contributes, given the raw scores of its
      candidate block: `generic_generator((a,)*idLen, idx, distance[idx])`
      after the remap, with `idx = argsort(distance)[:100]`. `write_doc_doc`
      passes `idLen = 100`, `write_term_term` passes `len(score)`. */
  function NearestBatch(a: nat, scores: seq<Score>, idLen: nat): (rows: seq<Row<Score>>)
    ensures |rows| == Min(idLen, Min(TopK, |scores|))
    ensures forall k :: 0 <= k < |rows| ==>
              rows[k].0 == a && rows[k].1 < |scores| && rows[k].2 == Remap(scores[rows[k].1])
    ensures forall k, l :: 0 <= k < l < |rows| ==> rows[k].1 != rows[l].1 && Le(rows[k].2, rows[l].2)
  {
    var d := RemapAll(scores);
    var idx := Select(d);
    Zip3(Repeat(a, idLen), idx, Gather(d, idx))
  }

  /** The first column's length does not matter once it covers the selection:
      `(a,)*100` and `(a,)*len(score)` give the same rows. */
  lemma NearestBatchIdLength(a: nat, scores: seq<Score>, idLen: nat)
    requires idLen >= Min(TopK, |scores|)
    ensures NearestBatch(a, scores, idLen) == NearestBatch(a, scores, TopK)
  {
    var d := RemapAll(scores);
    var idx := Select(d);
    Zip3LongerFirst(Repeat(a, idLen), Repeat(a, TopK), idx, Gather(d, idx));
  }

  /** No candidate left out of the batch scores strictly lower than one kept. */
  lemma NearestBatchKeepsBest(a: nat, scores: seq<Score>, idLen: nat, j: nat, k: nat)
    requires idLen >= Min(TopK, |scores|)
    requires j < |scores|
    requires forall l :: 0 <= l < |NearestBatch(a, scores, idLen)| ==> NearestBatch(a, scores, idLen)[l].1 != j
    requires k < |NearestBatch(a, scores, idLen)|
    ensures Le(NearestBatch(a, scores, idLen)[k].2, Remap(scores[j]))
  {
    var d := RemapAll(scores);
    var idx := Select(d);
    var rows := NearestBatch(a, scores, idLen);
    assert forall l :: 0 <= l < |idx| ==> rows[l].1 == idx[l];
    assert j !in idx;
  }

  /** A candidate whose score was exactly zero is stored with score infinity,
      only when fewer than 100 candidates have a finite non-zero score, and
      after every one of those. */
  lemma ZeroCandidateRanksLast(a: nat, scores: seq<Score>, idLen: nat, k: nat)
    requires idLen >= Min(TopK, |scores|)
    requires k < |NearestBatch(a, scores, idLen)|
    requires scores[NearestBatch(a, scores, idLen)[k].1] == Fin(0.0)
    ensures NearestBatch(a, scores, idLen)[k].2 == Inf
    ensures |FiniteCandidates(RemapAll(scores))| <= k < TopK
    ensures forall j :: 0 <= j < |scores| && Remap(scores[j]).Fin? ==>
              exists l :: 0 <= l < k && NearestBatch(a, scores, idLen)[l].1 == j
  {
    var d := RemapAll(scores);
    var idx := Select(d);
    var rows := NearestBatch(a, scores, idLen);
    assert forall l :: 0 <= l < |rows| ==> rows[l].1 == idx[l];
    InfSelectedAfterAllFinite(d, k);
    forall j | 0 <= j < |scores| && Remap(scores[j]).Fin?
      ensures exists l :: 0 <= l < k && rows[l].1 == j
    {
      assert d[j].Fin?;
      var p :| 0 <= p < k && idx[..k][p] == j;
      assert rows[p].1 == j;
    }
  }

  /** When at most 100 candidates have a finite non-zero score, all of them
      are stored. */
  lemma FewFiniteAllKept(a: nat, scores: seq<Score>, idLen: nat, j: nat)
    requires idLen >= Min(TopK, |scores|)
    requires |FiniteCandidates(RemapAll(scores))| <= TopK
    requires j < |scores| && Remap(scores[j]).Fin?
    ensures exists l :: 0 <= l < |NearestBatch(a, scores, idLen)| && NearestBatch(a, scores, idLen)[l].1 == j
  {
    var d := RemapAll(scores);
    var idx := Select(d);
    var rows := NearestBatch(a, scores, idLen);
    AllFiniteSelectedWhenFew(d, j);
    var p :| 0 <= p < |idx| && idx[p] == j;
    assert rows[p].1 == j;
  }

  /** The body of one iteration of the per-reference loop: overwrite the exact
      zeros of `distance` with infinity in place, then select and zip. */
  method NearestRows(a: nat, distance: array<Score>, idLen: nat) returns (rows: seq<Row<Score>>)
    modifies distance
    ensures distance[..] == RemapAll(old(distance[..]))
    ensures rows == NearestBatch(a, old(distance[..]), idLen)
  {
    for k := 0 to distance.Length
      invariant forall p :: 0 <= p < k ==> distance[p] == Remap(old(distance[p]))
      invariant forall p :: k <= p < distance.Length ==> distance[p] == old(distance[p])
    {
      if distance[k] == Fin(0.0) {
        distance[k] := Inf;
      }
    }
    var d := distance[..];
    assert d == RemapAll(old(distance[..]));
    var idx := Select(d);
    rows := Zip3(Repeat(a, idLen), idx, Gather(d, idx));
  }

  /** A block of at most `TopK` candidates is stored whole: every
      candidate gets a row, finite, zero or infinite. */
  lemma FewCandidatesAllKept(a: nat, scores: seq<Score>, idLen: nat, j: nat)
    requires idLen >= Min(TopK, |scores|)
    requires |scores| <= TopK && j < |scores|
    ensures exists l :: 0 <= l < |NearestBatch(a, scores, idLen)| && NearestBatch(a, scores, idLen)[l].1 == j
  {
    var d := RemapAll(scores);
    var idx := Select(d);
    var rows := NearestBatch(a, scores, idLen);
    SelectKeepsAllWhenFew(d, j);
    var p :| 0 <= p < |idx| && idx[p] == j;
    assert rows[p].1 == j;
  }

  /** One batch per document of `theta` (the row-normalised gamma matrix). */
  function DocDocBatches(theta: Matrix, dist: (seq<real>, seq<real>) -> Score): (bs: seq<seq<Row<Score>>>)
    ensures |bs| == |theta|
    ensures forall a :: 0 <= a < |theta| ==> bs[a] == NearestBatch(a, CandidateScores(theta, a, dist), TopK)
  {
    seq(|theta|, a requires 0 <= a < |theta| => NearestBatch(a, CandidateScores(theta, a, dist), TopK))
  }

  /** `write_doc_doc`: the rows inserted into doc_doc, reference by reference. */
  method WriteDocDoc(theta: Matrix, dist: (seq<real>, seq<real>) -> Score) returns (rows: seq<Row<Score>>)
    ensures rows == Flatten(DocDocBatches(theta, dist))
  {
    rows := [];
    for a := 0 to |theta|
      invariant rows == Flatten(DocDocBatches(theta, dist)[..a])
    {
      var s := CandidateScores(theta, a, dist);
      var distance := new Score[|s|](k requires 0 <= k < |s| => s[k]);
      assert distance[..] == s;
      var batch := NearestRows(a, distance, TopK);
      FlattenSnoc(DocDocBatches(theta, dist), a);
      rows := rows + batch;
    }
    assert DocDocBatches(theta, dist)[..|theta|] == DocDocBatches(theta, dist);
  }

  /** `np.exp(v)**.5`, or any other elementwise transform of the weights. */
  function Transformed(m: Matrix, f: real -> real): (v: Matrix)
    ensures |v| == |m|
    ensures forall i :: 0 <= i < |m| ==> |v[i]| == |m[i]| && forall j :: 0 <= j < |m[i]| ==> v[i][j] == f(m[i][j])
  {
    seq(|m|, i requires 0 <= i < |m| => seq(|m[i]|, j requires 0 <= j < |m[i]| => f(m[i][j])))
  }

  /** One batch per row of the transformed beta matrix; the first column is
      repeated `len(score)` times instead of 100. */
  function TermTermBatches(v: Matrix, dist: (seq<real>, seq<real>) -> Score): (bs: seq<seq<Row<Score>>>)
    ensures |bs| == |v|
    ensures forall a :: 0 <= a < |v| ==> bs[a] == NearestBatch(a, CandidateScores(v, a, dist), |v| - a)
  {
    seq(|v|, a requires 0 <= a < |v| => NearestBatch(a, CandidateScores(v, a, dist), |v| - a))
  }

  /** `write_term_term`: read the beta rows, transform them, then the same
      per-reference loop as doc_doc. */
  method WriteTermTerm(lines: seq<string>, toReal: string -> real, transform: real -> real,
                       dist: (seq<real>, seq<real>) -> Score) returns (rows: seq<Row<Score>>)
    ensures rows == Flatten(TermTermBatches(Transformed(ParseRows(lines, toReal), transform), dist))
  {
    var m := LoadRows(lines, toReal);
    var v := Transformed(m, transform);
    rows := [];
    for a := 0 to |v|
      invariant rows == Flatten(TermTermBatches(v, dist)[..a])
    {
      var s := CandidateScores(v, a, dist);
      var score := new Score[|s|](k requires 0 <= k < |s| => s[k]);
      assert score[..] == s;
      var batch := NearestRows(a, score, score.Length);
      FlattenSnoc(TermTermBatches(v, dist), a);
      rows := rows + batch;
    }
    assert TermTermBatches(v, dist)[..|v|] == TermTermBatches(v, dist);
  }

  /** term_term and doc_doc select the same rows from the same matrix and
      distance, although their first generator arguments differ in length. */
  lemma TermTermIsDocDoc(v: Matrix, dist: (seq<real>, seq<real>) -> Score)
    ensures TermTermBatches(v, dist) == DocDocBatches(v, dist)
  {
    forall a | 0 <= a < |v|
      ensures TermTermBatches(v, dist)[a] == DocDocBatches(v, dist)[a]
    {
      NearestBatchIdLength(a, CandidateScores(v, a, dist), |v| - a);
    }
  }

  /** Every doc_doc row `(a, b, s)` names the candidate at LOCAL index `b` of
      the block `theta[a:]`, i.e. document `a + b`, and `s` is the remapped
      distance between documents `a` and `a + b`. */
  lemma DocDocRowsAreLocal(theta: Matrix, dist: (seq<real>, seq<real>) -> Score, r: Row<Score>)
    requires r in Flatten(DocDocBatches(theta, dist))
    ensures r.0 < |theta| && r.1 < |theta| - r.0
    ensures r.2 == Remap(dist(theta[r.0], theta[r.0 + r.1]))
  {
    var a, k := FlattenIndex(DocDocBatches(theta, dist), r);
    DocDocRow(theta, dist, a, k);
  }

  /** Row `k` of reference `a`'s batch. */
  lemma DocDocRow(theta: Matrix, dist: (seq<real>, seq<real>) -> Score, a: nat, k: nat)
    requires a < |theta| && k < |DocDocBatches(theta, dist)[a]|
    ensures var r := DocDocBatches(theta, dist)[a][k];
            r.0 == a && r.1 < |theta| - a && r.2 == Remap(dist(theta[a], theta[a + r.1]))
  {
    var s := CandidateScores(theta, a, dist);
    var rows := NearestBatch(a, s, TopK);
    assert rows[k].0 == a && rows[k].1 < |s| && rows[k].2 == Remap(s[rows[k].1]);
  }

  /** Rows contributed by the first `a` of `n` reference entities:
      `min(100, n - i)` for each `i < a`. */
  function NearestRowTotal(n: nat, a: nat): nat
    requires a <= n
  {
    if a == 0 then 0 else NearestRowTotal(n, a - 1) + Min(TopK, n - (a - 1))
  }

  /** Reference `a` keeps `min(100, N - a)` rows. */
  lemma DocDocBatchLength(theta: Matrix, dist: (seq<real>, seq<real>) -> Score, a: nat)
    requires a < |theta|
    ensures |DocDocBatches(theta, dist)[a]| == Min(TopK, |theta| - a)
  {
    var s := CandidateScores(theta, a, dist);
    assert |NearestBatch(a, s, TopK)| == Min(TopK, Min(TopK, |s|));
  }

  lemma {:induction false} DocDocPrefixCount(theta: Matrix, dist: (seq<real>, seq<real>) -> Score, a: nat)
    requires a <= |theta|
    ensures |Flatten(DocDocBatches(theta, dist)[..a])| == NearestRowTotal(|theta|, a)
  {
    if a > 0 {
      var bs := DocDocBatches(theta, dist);
      assert |Flatten(bs[..a])| == |Flatten(bs[..a - 1])| + |bs[a - 1]| by {
        FlattenSnoc(bs, a - 1);
      }
      assert |bs[a - 1]| == Min(TopK, |theta| - (a - 1)) by {
        DocDocBatchLength(theta, dist, a - 1);
      }
      DocDocPrefixCount(theta, dist, a - 1);
    }
  }

  /** doc_doc holds `sum(min(100, N - a) for a in range(N))` rows: reference
      `a` has `N - a` candidates (itself included) and keeps at most 100. */
  lemma DocDocRowCount(theta: Matrix, dist: (seq<real>, seq<real>) -> Score)
    ensures |Flatten(DocDocBatches(theta, dist))| == NearestRowTotal(|theta|, |theta|)
  {
    DocDocPrefixCount(theta, dist, |theta|);
    assert DocDocBatches(theta, dist)[..|theta|] == DocDocBatches(theta, dist);
  }

  /** When at most `TopK` documents remain from `a` on, the self pair
      (local id 0) of document `a` is stored, whatever its distance. */
  lemma SelfPairStoredWhenFew(theta: Matrix, dist: (seq<real>, seq<real>) -> Score, a: nat)
    requires a < |theta| && |theta| - a <= TopK
    ensures exists l :: 0 <= l < |DocDocBatches(theta, dist)[a]| && DocDocBatches(theta, dist)[a][l].1 == 0
  {
    var s := CandidateScores(theta, a, dist);
    assert DocDocBatches(theta, dist)[a] == NearestBatch(a, s, TopK);
    FewCandidatesAllKept(a, s, TopK, 0);
  }

  /** The self pair sits at local index 0. When the distance of a row to
      itself is zero it is stored, if at all, with score infinity, after every
      candidate with a finite non-zero score, and only when fewer than 100 of
      those exist. */
  lemma SelfPairRanksLast(theta: Matrix, dist: (seq<real>, seq<real>) -> Score, a: nat, k: nat)
    requires a < |theta| && dist(theta[a], theta[a]) == Fin(0.0)
    requires k < |DocDocBatches(theta, dist)[a]| && DocDocBatches(theta, dist)[a][k].1 == 0
    ensures DocDocBatches(theta, dist)[a][k].2 == Inf
    ensures var d := RemapAll(CandidateScores(theta, a, dist));
            |FiniteCandidates(d)| < TopK &&
            forall j :: 0 <= j < |d| && d[j].Fin? ==> exists l :: 0 <= l < k && DocDocBatches(theta, dist)[a][l].1 == j
  {
    var s := CandidateScores(theta, a, dist);
    ZeroCandidateRanksLast(a, s, TopK, k);
  }

  // The doc_doc rows with the second id made global, as the upper-triangle
  // design evidently intends (`a + local`); the code as written stores `local`.

  function GlobalDocDocBatches(theta: Matrix, dist: (seq<real>, seq<real>) -> Score): (bs: seq<seq<Row<Score>>>)
    ensures |bs| == |theta|
    ensures forall a :: 0 <= a < |theta| ==> bs[a] == ToGlobal(a, DocDocBatches(theta, dist)[a])
  {
    seq(|theta|, a requires 0 <= a < |theta| => ToGlobal(a, DocDocBatches(theta, dist)[a]))
  }

  /** With global ids every row `(a, b, s)` lies in the upper triangle and `s`
      is the remapped distance between documents `a` and `b` themselves. */
  lemma GlobalDocDocRowsNameTheirPair(theta: Matrix, dist: (seq<real>, seq<real>) -> Score, r: Row<Score>)
    requires r in Flatten(GlobalDocDocBatches(theta, dist))
    ensures r.0 <= r.1 < |theta|
    ensures r.2 == Remap(dist(theta[r.0], theta[r.1]))
  {
    var a, k := FlattenIndex(GlobalDocDocBatches(theta, dist), r);
    GlobalDocDocRow(theta, dist, a, k);
  }

  /** Row `k` of reference `a`'s batch with the global id. */
  lemma GlobalDocDocRow(theta: Matrix, dist: (seq<real>, seq<real>) -> Score, a: nat, k: nat)
    requires a < |theta| && k < |GlobalDocDocBatches(theta, dist)[a]|
    ensures var r := GlobalDocDocBatches(theta, dist)[a][k];
            r.0 == a && a <= r.1 < |theta| && r.2 == Remap(dist(theta[a], theta[r.1]))
  {
    DocDocRow(theta, dist, a, k);
  }

  /** As written, three documents at distance 1 from each other: doc_doc stores
      `(1, 1, 1.0)`, which reads as a self pair of document 1 with a non-zero
      distance, though it is the pair (1, 2); the self distance of document 1
      is 0. */
  lemma LocalIdReadsAsSelfPair()
    ensures var theta := [[1.0], [2.0], [3.0]];
            var dist := (x: seq<real>, y: seq<real>) => if x == y then Fin(0.0) else Fin(1.0);
            dist(theta[1], theta[1]) == Fin(0.0) &&
            (1, 1, Fin(1.0)) in Flatten(DocDocBatches(theta, dist))
  {
    var theta := [[1.0], [2.0], [3.0]];
    var dist := (x: seq<real>, y: seq<real>) => if x == y then Fin(0.0) else Fin(1.0);
    var bs := DocDocBatches(theta, dist);
    var s := CandidateScores(theta, 1, dist);
    assert s == [Fin(0.0), Fin(1.0)];
    var rows := bs[1];
    assert |rows| == 2;
    assert rows[0].1 == 1 by {
      if rows[0].1 == 0 {
        assert false;
      }
    }
    assert rows[0] == (1, 1, Fin(1.0));
    FlattenMember(bs, (1, 1, Fin(1.0)));
  }
}
