/** `write_topics`: one title per line of the beta file, naming the three
    heaviest terms of that topic as `"{w0, w1, w2}"`. */
module Topics {
  import opened Errors
  import opened Text
  import opened Ranking
  import opened Rows

  /** `argsort(w)[::-1][:3]`: three distinct columns, heaviest first, and no
      other column weighs more than the third. */
  function TopThree(w: seq<real>): (t: (nat, nat, nat))
    requires |w| >= 3
    ensures t.0 < |w| && t.1 < |w| && t.2 < |w|
    ensures t.0 != t.1 && t.1 != t.2 && t.0 != t.2
    ensures w[t.0] >= w[t.1] >= w[t.2]
    ensures forall j :: 0 <= j < |w| && j != t.0 && j != t.1 && j != t.2 ==> w[j] <= w[t.2]
  {
    var index := ArgSortDesc(w);
    forall j | 0 <= j < |w| && j != index[0] && j != index[1] && j != index[2]
      ensures w[j] <= w[index[2]]
    {
      assert j in index;
      var p :| 0 <= p < |index| && index[p] == j;
    }
    (index[0], index[1], index[2])
  }

  /** `"{%s, %s, %s}" % (vocab[index[0]], vocab[index[1]], vocab[index[2]])`.
      A row with fewer than three columns, or a top column past the end of
      the vocabulary, raises `IndexError`. */
  function Title(w: seq<real>, vocab: seq<string>): (r: Result<string>)
    ensures r.Err? ==> r.error == IndexError
    ensures r.Ok? <==> |w| >= 3 && TopThree(w).0 < |vocab| && TopThree(w).1 < |vocab| && TopThree(w).2 < |vocab|
  {
    if |w| < 3 then Err(IndexError)
    else
      var t := TopThree(w);
      if t.0 < |vocab| && t.1 < |vocab| && t.2 < |vocab| then
        Ok("{" + vocab[t.0] + ", " + vocab[t.1] + ", " + vocab[t.2] + "}")
      else Err(IndexError)
  }

  /** A title reads back as its three words, heaviest first: between the
      braces, splitting on `,` gives the words, the second and third after
      one space (vocabulary words hold no comma). */
  lemma TitleReadsBack(w: seq<real>, vocab: seq<string>)
    requires Title(w, vocab).Ok?
    requires forall k :: 0 <= k < |vocab| ==> ',' !in vocab[k]
    ensures var s := Title(w, vocab).value; var t := TopThree(w);
            |s| >= 2 && s[0] == '{' && s[|s| - 1] == '}' &&
            SplitOn(s[1..|s| - 1], ',') == [vocab[t.0], " " + vocab[t.1], " " + vocab[t.2]]
  {
    var t := TopThree(w);
    var a, b, c := vocab[t.0], " " + vocab[t.1], " " + vocab[t.2];
    var s := Title(w, vocab).value;
    assert s == "{" + (a + [','] + b + [','] + c) + "}";
    assert s[1..|s| - 1] == a + [','] + (b + [','] + c);
    SplitOnCons(a, b + [','] + c, ',');
    assert ',' !in b && ',' !in c;
    SplitOnPair(b, c, ',');
  }

  /** Weights 0.1, 0.7, 0.2 over the words a, b, c give the title "{b, c, a}". */
  lemma TitleExample()
    ensures Title([0.1, 0.7, 0.2], ["a", "b", "c"]) == Ok("{b, c, a}")
  {
    var w := [0.1, 0.7, 0.2];
    var t := TopThree(w);
    assert w[1] > w[2] > w[0];
    assert t.0 == 1 && t.1 == 2 && t.2 == 0;
    assert Title(w, ["a", "b", "c"]) == Ok("{" + "b" + ", " + "c" + ", " + "a" + "}");
    assert "{" + "b" + ", " + "c" + ", " + "a" + "}" == "{b, c, a}";
  }

  /** The title of one line of the beta file. */
  function LineTitle(line: string, toReal: string -> real, vocab: seq<string>): Result<string> {
    Title(ParseRow(line, toReal), vocab)
  }

  /** The title of every line of the beta file, as each line would raise
      or succeed on its own. */
  function LineTitles(lines: seq<string>, toReal: string -> real, vocab: seq<string>): (ts: seq<Result<string>>)
    ensures |ts| == |lines|
    ensures forall i :: 0 <= i < |lines| ==> ts[i] == LineTitle(lines[i], toReal, vocab)
  {
    seq(|lines|, i requires 0 <= i < |lines| => LineTitle(lines[i], toReal, vocab))
  }

  /** `write_topics`: one title per topic, in file order; the first line
      whose title raises ends the run, before the commit, so no title row
      is kept. `Collect`'s lemmas say what that result holds. */
  method WriteTopics(lines: seq<string>, toReal: string -> real, vocab: seq<string>) returns (r: Result<seq<string>>)
    ensures r == Collect(LineTitles(lines, toReal, vocab))
  {
    ghost var ts := LineTitles(lines, toReal, vocab);
    var titles: seq<string> := [];
    for i := 0 to |lines|
      invariant Collect(ts[..i]) == Ok(titles)
    {
      var topic := ParseRow(lines[i], toReal);
      var title := Title(topic, vocab);
      if title.Err? {
        CollectSnocErr(ts, i);
        return Err(title.error);
      }
      CollectSnoc(ts, i, titles);
      titles := titles + [title.value];
    }
    assert ts[..|lines|] == ts;
    r := Ok(titles);
  }
}
