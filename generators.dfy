/** The utility generators of the module (`generic_generator`,
    `file_generator`) and the small sequence shapes the row builders feed
    them: `(x,) * n`, `range(n)`, numpy fancy indexing, and the concatenation
    of one batch of rows per reference entity. */
module Generators {
  import opened Text

  function Min(x: int, y: int): int {
    if x <= y then x else y
  }

  /** `(x,) * n`. */
  function Repeat<T>(x: T, n: nat): (r: seq<T>)
    ensures |r| == n
    ensures forall k :: 0 <= k < n ==> r[k] == x
  {
    seq(n, _ => x)
  }

  /** `range(n)`. */
  function Range(n: nat): (r: seq<nat>)
    ensures |r| == n
    ensures forall k :: 0 <= k < n ==> r[k] == k
  {
    seq(n, k => k)
  }

  /** `generic_generator(xs, ys, zs)`, i.e. `zip(xs, ys, zs)`: the tuple of
      i-th elements for every i below the length of the shortest argument,
      in order; the surplus of the longer arguments is dropped. */
  function Zip3<A, B, C>(xs: seq<A>, ys: seq<B>, zs: seq<C>): (r: seq<(A, B, C)>)
    ensures |r| == Min(|xs|, Min(|ys|, |zs|))
    ensures forall k :: 0 <= k < |r| ==> r[k] == (xs[k], ys[k], zs[k])
  {
    if xs == [] || ys == [] || zs == [] then []
    else [(xs[0], ys[0], zs[0])] + Zip3(xs[1..], ys[1..], zs[1..])
  }

  /** Only the shortest argument decides the length: lengthening an argument
      that is already at least as long as another changes nothing. */
  lemma Zip3LongerFirst<A, B, C>(xs: seq<A>, xs': seq<A>, ys: seq<B>, zs: seq<C>)
    requires |xs| >= Min(|ys|, |zs|) && |xs'| >= Min(|ys|, |zs|)
    requires forall k :: 0 <= k < Min(|ys|, |zs|) ==> xs[k] == xs'[k]
    ensures Zip3(xs, ys, zs) == Zip3(xs', ys, zs)
  {
  }

  /** The second column of a batch of rows. */
  function Seconds<A, B, C>(rows: seq<(A, B, C)>): (ids: seq<B>)
    ensures |ids| == |rows|
    ensures forall k :: 0 <= k < |rows| ==> ids[k] == rows[k].1
  {
    seq(|rows|, k requires 0 <= k < |rows| => rows[k].1)
  }

  predicate IndicesBelow(idx: seq<nat>, n: nat) {
    forall k :: 0 <= k < |idx| ==> idx[k] < n
  }

  /** `s[idx]` with an integer index array (numpy fancy indexing). */
  function Gather<T>(s: seq<T>, idx: seq<nat>): (r: seq<T>)
    requires IndicesBelow(idx, |s|)
    ensures |r| == |idx|
    ensures forall k :: 0 <= k < |idx| ==> r[k] == s[idx[k]]
  {
    seq(|idx|, k requires 0 <= k < |idx| => s[idx[k]])
  }

  /** The rows of successive `executemany` calls, one batch per reference
      entity, in the order the batches were inserted. */
  function Flatten<T>(bs: seq<seq<T>>): (r: seq<T>)
    ensures forall x :: x in r ==> exists i :: 0 <= i < |bs| && x in bs[i]
  {
    if bs == [] then [] else Flatten(bs[..|bs| - 1]) + bs[|bs| - 1]
  }

  lemma FlattenSnoc<T>(bs: seq<seq<T>>, a: nat)
    requires a < |bs|
    ensures Flatten(bs[..a + 1]) == Flatten(bs[..a]) + bs[a]
  {
    assert bs[..a + 1][..a] == bs[..a];
  }

  /** A row was inserted exactly when some batch holds it. */
  lemma {:induction false} FlattenMember<T>(bs: seq<seq<T>>, x: T)
    ensures x in Flatten(bs) <==> exists i :: 0 <= i < |bs| && x in bs[i]
  {
    if bs != [] {
      var n := |bs| - 1;
      FlattenMember(bs[..n], x);
      assert forall i :: 0 <= i < n ==> bs[..n][i] == bs[i];
    }
  }

  /** Where a row of the concatenation comes from: batch `a`, position `k`. */
  lemma FlattenIndex<T>(bs: seq<seq<T>>, x: T) returns (a: nat, k: nat)
    requires x in Flatten(bs)
    ensures a < |bs| && k < |bs[a]| && bs[a][k] == x
  {
    FlattenMember(bs, x);
    a :| a < |bs| && x in bs[a];
    k :| k < |bs[a]| && bs[a][k] == x;
  }

  /** `file_generator(fhandle)`: each line of the file, stripped. */
  function FileGenerator(lines: seq<string>): (r: seq<string>)
    ensures |r| == |lines|
    ensures forall k :: 0 <= k < |r| ==> r[k] == Strip(lines[k])
  {
    seq(|lines|, k requires 0 <= k < |lines| => Strip(lines[k]))
  }

  /** Every yielded line has no whitespace at either end, and stripping it
      again leaves it unchanged. */
  lemma FileGeneratorStripped(lines: seq<string>, k: nat)
    requires k < |lines|
    ensures var r := FileGenerator(lines)[k];
            (r == [] || (!IsSpace(r[0]) && !IsSpace(r[|r| - 1]))) && Strip(r) == r
  {
    StripIdempotent(lines[k]);
  }

  /** Distinct elements: as many as the sequence is long. */
  lemma {:induction false} DistinctCard<T>(l: seq<T>)
    requires forall p, q :: 0 <= p < q < |l| ==> l[p] != l[q]
    ensures |set x | x in l| == |l|
  {
    if l != [] {
      DistinctCard(l[1..]);
      assert (set x | x in l) == {l[0]} + (set x | x in l[1..]);
      assert l[0] !in (set x | x in l[1..]);
    }
  }

  /** Any sequence has at most as many distinct elements as it is long. */
  lemma {:induction false} SeqSetCard<T>(l: seq<T>)
    ensures |set x | x in l| <= |l|
  {
    if l != [] {
      SeqSetCard(l[1..]);
      assert (set x | x in l) == {l[0]} + (set x | x in l[1..]);
    }
  }

  lemma {:induction false} SubsetCard<T>(a: set<T>, b: set<T>)
    requires a <= b
    ensures |a| <= |b|
    decreases |a|
  {
    if a != {} {
      var x :| x in a;
      SubsetCard(a - {x}, b - {x});
    }
  }
}
