/** Reading weight rows and pairing a reference row with its candidate block.
    Float conversion (`float(token)`) and the distance functions are given
    as parameters: they are floating-point numerics outside this model. */
module Rows {
  import opened Text
  import opened Generators

  type Matrix = seq<seq<real>>

  /** A relation row `(entity_a, entity_b, score)` as the generators yield it. */
  type Row<S> = (nat, nat, S)

  /** `map(float, line.split())`. */
  function ParseRow(line: string, toReal: string -> real): (w: seq<real>)
    ensures |w| == |Split(line)|
    ensures forall k :: 0 <= k < |w| ==> w[k] == toReal(Split(line)[k])
  {
    var ws := Split(line);
    seq(|ws|, k requires 0 <= k < |ws| => toReal(ws[k]))
  }

  /** The matrix a whole file parses to, one row per line. */
  function ParseRows(lines: seq<string>, toReal: string -> real): (m: Matrix)
    ensures |m| == |lines|
    ensures forall i :: 0 <= i < |lines| ==> m[i] == ParseRow(lines[i], toReal)
  {
    seq(|lines|, i requires 0 <= i < |lines| => ParseRow(lines[i], toReal))
  }

  /** The loop `for line in f: rows.append(map(float, line.split()))`. */
  method LoadRows(lines: seq<string>, toReal: string -> real) returns (m: Matrix)
    ensures m == ParseRows(lines, toReal)
  {
    m := [];
    for i := 0 to |lines|
      invariant |m| == i
      invariant forall k :: 0 <= k < i ==> m[k] == ParseRow(lines[k], toReal)
    {
      m := m + [ParseRow(lines[i], toReal)];
    }
  }

  /** `f(m[a], m[a:])` for a distance `f` vectorised over rows: one score per
      candidate row of the block that starts at the reference row itself,
      so local index `k` names row `a + k`. */
  function CandidateScores<S>(m: Matrix, a: nat, dist: (seq<real>, seq<real>) -> S): (s: seq<S>)
    requires a < |m|
    ensures |s| == |m| - a
    ensures forall k :: 0 <= k < |s| ==> s[k] == dist(m[a], m[a + k])
  {
    seq(|m| - a, k requires 0 <= k < |m| - a => dist(m[a], m[a + k]))
  }

  /** A batch of reference `a` with its second ids made global: the
      candidate at local index `k` of the block `m[a:]` is row `a + k`. */
  function ToGlobal<S>(a: nat, rows: seq<Row<S>>): (g: seq<Row<S>>)
    ensures |g| == |rows|
    ensures forall k :: 0 <= k < |rows| ==> g[k] == (rows[k].0, a + rows[k].1, rows[k].2)
  {
    seq(|rows|, k requires 0 <= k < |rows| => (rows[k].0, a + rows[k].1, rows[k].2))
  }

  /** `generic_generator((id,)*len(s), range(len(s)), s)`: one row per entry
      of `s`, carrying `id`, the entry's position and the entry. */
  function Enumerated<S>(id: nat, s: seq<S>): (rows: seq<Row<S>>)
    ensures |rows| == |s|
    ensures forall k :: 0 <= k < |s| ==> rows[k] == (id, k, s[k])
  {
    Zip3(Repeat(id, |s|), Range(|s|), s)
  }
}
