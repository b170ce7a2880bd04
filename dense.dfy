/** The relations written without truncation: `doc_topic` (every column of
    every gamma row, in column order), `topic_topic` (every candidate of the
    upper-triangle block, in block order) and `topic_term` (every column of
    every beta row, heaviest first). */
module Dense {
  import opened Generators
  import opened Ranking
  import opened Rows

  function DocTopicBatches(lines: seq<string>, toReal: string -> real): (bs: seq<seq<Row<real>>>)
    ensures |bs| == |lines|
    ensures forall i :: 0 <= i < |lines| ==> bs[i] == Enumerated(i, ParseRow(lines[i], toReal))
  {
    seq(|lines|, i requires 0 <= i < |lines| => Enumerated(i, ParseRow(lines[i], toReal)))
  }

  /** `write_doc_topic`: for each line of the gamma file, `(doc_no, j, w_j)`
      for every column `j`. */
  method WriteDocTopic(lines: seq<string>, toReal: string -> real) returns (rows: seq<Row<real>>)
    ensures rows == Flatten(DocTopicBatches(lines, toReal))
  {
    rows := [];
    for docNo := 0 to |lines|
      invariant rows == Flatten(DocTopicBatches(lines, toReal)[..docNo])
    {
      var doc := ParseRow(lines[docNo], toReal);
      FlattenSnoc(DocTopicBatches(lines, toReal), docNo);
      rows := rows + Enumerated(docNo, doc);
    }
    assert DocTopicBatches(lines, toReal)[..|lines|] == DocTopicBatches(lines, toReal);
  }

  /** doc_topic holds exactly the triples `(i, j, w)` where `w` is column `j`
      of line `i` of the gamma file. */
  lemma DocTopicRowsAreDense(lines: seq<string>, toReal: string -> real, r: Row<real>)
    ensures r in Flatten(DocTopicBatches(lines, toReal)) <==>
              r.0 < |lines| && r.1 < |ParseRow(lines[r.0], toReal)| && r.2 == ParseRow(lines[r.0], toReal)[r.1]
  {
    var bs := DocTopicBatches(lines, toReal);
    FlattenMember(bs, r);
    if r.0 < |lines| && r.1 < |ParseRow(lines[r.0], toReal)| && r.2 == ParseRow(lines[r.0], toReal)[r.1] {
      assert bs[r.0][r.1] == r;
    }
  }

  function TopicTopicBatches(topics: Matrix, score: (seq<real>, seq<real>) -> real): (bs: seq<seq<Row<real>>>)
    ensures |bs| == |topics|
    ensures forall a :: 0 <= a < |topics| ==> bs[a] == Enumerated(a, CandidateScores(topics, a, score))
  {
    seq(|topics|, a requires 0 <= a < |topics| => Enumerated(a, CandidateScores(topics, a, score)))
  }

  /** `write_topic_topic`: read all beta rows into `topics`, then for each
      reference topic emit one row per candidate of `topics[a:]`. */
  method WriteTopicTopic(lines: seq<string>, toReal: string -> real, score: (seq<real>, seq<real>) -> real)
    returns (rows: seq<Row<real>>)
    ensures rows == Flatten(TopicTopicBatches(ParseRows(lines, toReal), score))
  {
    var topics := LoadRows(lines, toReal);
    rows := [];
    for a := 0 to |topics|
      invariant rows == Flatten(TopicTopicBatches(topics, score)[..a])
    {
      var scores := CandidateScores(topics, a, score);
      FlattenSnoc(TopicTopicBatches(topics, score), a);
      rows := rows + Enumerated(a, scores);
    }
    assert TopicTopicBatches(topics, score)[..|topics|] == TopicTopicBatches(topics, score);
  }

  /** topic_topic holds exactly the triples `(a, b, s)` with `b` a LOCAL index
      below `N - a` and `s` the score of topic `a` against topic `a + b`:
      every pair of the upper triangle, self pairs included, once. */
  lemma TopicTopicRowsAreLocal(topics: Matrix, score: (seq<real>, seq<real>) -> real, r: Row<real>)
    ensures r in Flatten(TopicTopicBatches(topics, score)) <==>
              r.0 < |topics| && r.1 < |topics| - r.0 && r.2 == score(topics[r.0], topics[r.0 + r.1])
  {
    var bs := TopicTopicBatches(topics, score);
    FlattenMember(bs, r);
    if r.0 < |topics| && r.1 < |topics| - r.0 && r.2 == score(topics[r.0], topics[r.0 + r.1]) {
      assert bs[r.0][r.1] == r;
    }
  }

  /** As written, two topics: topic_topic stores `(1, 0, s)` with `s` the
      score of topic 1 against ITSELF, which reads as the pair (1, 0). */
  lemma TopicTopicLocalIdExample(score: (seq<real>, seq<real>) -> real)
    ensures (1, 0, score([2.0], [2.0])) in Flatten(TopicTopicBatches([[1.0], [2.0]], score))
  {
    var topics := [[1.0], [2.0]];
    var bs := TopicTopicBatches(topics, score);
    assert bs[1][0] == (1, 0, score([2.0], [2.0]));
    FlattenMember(bs, (1, 0, score([2.0], [2.0])));
  }

  /** topic_topic with the second id made global, as the upper-triangle
      design evidently intends. */
  function GlobalTopicTopicBatches(topics: Matrix, score: (seq<real>, seq<real>) -> real): (bs: seq<seq<Row<real>>>)
    ensures |bs| == |topics|
    ensures forall a :: 0 <= a < |topics| ==> bs[a] == ToGlobal(a, TopicTopicBatches(topics, score)[a])
  {
    seq(|topics|, a requires 0 <= a < |topics| => ToGlobal(a, TopicTopicBatches(topics, score)[a]))
  }

  /** With global ids, topic_topic holds exactly the triples `(a, b, s)` of
      the upper triangle, self pairs included, with `s` the score of topics
      `a` and `b` themselves. */
  lemma GlobalTopicTopicRowsNameTheirPair(topics: Matrix, score: (seq<real>, seq<real>) -> real, r: Row<real>)
    ensures r in Flatten(GlobalTopicTopicBatches(topics, score)) <==>
              r.0 <= r.1 < |topics| && r.2 == score(topics[r.0], topics[r.1])
  {
    var bs := GlobalTopicTopicBatches(topics, score);
    if r in Flatten(bs) {
      var a, k := FlattenIndex(bs, r);
      GlobalTopicTopicRow(topics, score, a, k);
    }
    if r.0 <= r.1 < |topics| && r.2 == score(topics[r.0], topics[r.1]) {
      GlobalTopicTopicRow(topics, score, r.0, r.1 - r.0);
      FlattenMember(bs, r);
    }
  }

  /** Row `k` of topic `a`'s corrected batch names the pair `(a, a + k)`. */
  lemma GlobalTopicTopicRow(topics: Matrix, score: (seq<real>, seq<real>) -> real, a: nat, k: nat)
    requires a < |topics| && k < |topics| - a
    ensures k < |GlobalTopicTopicBatches(topics, score)[a]|
    ensures GlobalTopicTopicBatches(topics, score)[a][k] == (a, a + k, score(topics[a], topics[a + k]))
  {
    var rows := TopicTopicBatches(topics, score)[a];
    assert rows[k] == (a, k, score(topics[a], topics[a + k]));
  }

  /** `sum(n - i for i in range(a))`: the candidates of the first `a`
      reference topics out of `n`. */
  function TriangleTotal(n: nat, a: nat): nat
    requires a <= n
  {
    if a == 0 then 0 else TriangleTotal(n, a - 1) + (n - (a - 1))
  }

  lemma {:induction false} TriangleClosedForm(n: nat, a: nat)
    requires a <= n
    ensures 2 * TriangleTotal(n, a) == a * (2 * n - a + 1)
  {
    if a > 0 {
      TriangleClosedForm(n, a - 1);
      var b := a - 1;
      assert b * (2 * n - b + 1) + 2 * (n - b) == (b + 1) * (2 * n - b);
    }
  }

  lemma {:induction false} TopicTopicPrefixCount(topics: Matrix, score: (seq<real>, seq<real>) -> real, a: nat)
    requires a <= |topics|
    ensures |Flatten(TopicTopicBatches(topics, score)[..a])| == TriangleTotal(|topics|, a)
  {
    if a > 0 {
      var bs := TopicTopicBatches(topics, score);
      TopicTopicPrefixCount(topics, score, a - 1);
      FlattenSnoc(bs, a - 1);
      assert |bs[a - 1]| == |topics| - (a - 1);
    }
  }

  /** topic_topic holds `N (N + 1) / 2` rows: reference `a` emits all `N - a`
      candidates, its own pair included, with no truncation. */
  lemma TopicTopicRowCount(topics: Matrix, score: (seq<real>, seq<real>) -> real)
    ensures 2 * |Flatten(TopicTopicBatches(topics, score))| == |topics| * (|topics| + 1)
  {
    TopicTopicPrefixCount(topics, score, |topics|);
    TriangleClosedForm(|topics|, |topics|);
    assert TopicTopicBatches(topics, score)[..|topics|] == TopicTopicBatches(topics, score);
  }

  /** The rows of one topic: `generic_generator((topic_no,)*len(topic), index,
      topic[index])` with `index = argsort(topic)[::-1]` — every column once,
      heaviest first, each with its own weight. */
  function TopicTermBatch(topicNo: nat, w: seq<real>): (rows: seq<Row<real>>)
    ensures |rows| == |w|
    ensures forall k :: 0 <= k < |rows| ==> rows[k].0 == topicNo && rows[k].1 < |w| && rows[k].2 == w[rows[k].1]
    ensures forall k, l :: 0 <= k < l < |rows| ==> rows[k].1 != rows[l].1 && rows[k].2 >= rows[l].2
    ensures forall j :: 0 <= j < |w| ==> j in Seconds(rows)
  {
    var index := ArgSortDesc(w);
    var rows := Zip3(Repeat(topicNo, |w|), index, Gather(w, index));
    assert Seconds(rows) == index;
    rows
  }

  function TopicTermBatches(lines: seq<string>, toReal: string -> real): (bs: seq<seq<Row<real>>>)
    ensures |bs| == |lines|
    ensures forall i :: 0 <= i < |lines| ==> bs[i] == TopicTermBatch(i, ParseRow(lines[i], toReal))
  {
    seq(|lines|, i requires 0 <= i < |lines| => TopicTermBatch(i, ParseRow(lines[i], toReal)))
  }

  /** `write_topic_term`: one batch per line of the beta file. */
  method WriteTopicTerm(lines: seq<string>, toReal: string -> real) returns (rows: seq<Row<real>>)
    ensures rows == Flatten(TopicTermBatches(lines, toReal))
  {
    rows := [];
    for topicNo := 0 to |lines|
      invariant rows == Flatten(TopicTermBatches(lines, toReal)[..topicNo])
    {
      var topic := ParseRow(lines[topicNo], toReal);
      var index := ArgSortDesc(topic);
      var batch := Zip3(Repeat(topicNo, |topic|), index, Gather(topic, index));
      assert batch == TopicTermBatch(topicNo, topic);
      FlattenSnoc(TopicTermBatches(lines, toReal), topicNo);
      rows := rows + batch;
    }
    assert TopicTermBatches(lines, toReal)[..|lines|] == TopicTermBatches(lines, toReal);
  }
}
