/** The two Python exceptions the modelled code can raise on bad input,
    and the result type that carries either a value or one of them. */
module Errors {

  /** `IndexError`: a list index past the end (a missing `:` part of a
      word-count token, a topic row with fewer than three columns, a term
      index outside the vocabulary). `ValueError`: `int()` given text that is
      not a base-10 integer; `literal` is that text. */
  datatype Error = IndexError | ValueError(literal: string)

  datatype Result<T> = Ok(value: T) | Err(error: Error)

  /** The values of a run of steps that each may raise, in order, or the
      error of the first step that raises: what a loop that stops at its
      first exception produces. */
  function Collect<T>(rs: seq<Result<T>>): (r: Result<seq<T>>)
    ensures r.Ok? ==> |r.value| == |rs|
    ensures r.Err? ==> Err(r.error) in rs
  {
    if rs == [] then Ok([])
    else
      var prefix := Collect(rs[..|rs| - 1]);
      if prefix.Err? then prefix
      else if rs[|rs| - 1].Err? then Err(rs[|rs| - 1].error)
      else Ok(prefix.value + [rs[|rs| - 1].value])
  }

  /** The run succeeds exactly when every step does, and then yields one
      value per step, in order. */
  lemma {:induction false} CollectOk<T>(rs: seq<Result<T>>)
    ensures Collect(rs).Ok? <==> forall i :: 0 <= i < |rs| ==> rs[i].Ok?
    ensures Collect(rs).Ok? ==> |Collect(rs).value| == |rs|
    ensures Collect(rs).Ok? ==> forall i :: 0 <= i < |rs| ==> Collect(rs).value[i] == rs[i].value
  {
    if rs != [] {
      var n := |rs| - 1;
      var init := rs[..n];
      CollectOk(init);
      assert forall i :: 0 <= i < n ==> init[i] == rs[i];
      if Collect(init).Err? {
        var i :| 0 <= i < n && !init[i].Ok?;
        assert !rs[i].Ok?;
      }
    }
  }

  /** A failing run fails with the error of its first failing step. */
  lemma {:induction false} CollectFirstError<T>(rs: seq<Result<T>>)
    requires Collect(rs).Err?
    ensures exists i :: 0 <= i < |rs| && rs[i] == Err(Collect(rs).error) && forall j :: 0 <= j < i ==> rs[j].Ok?
  {
    var n := |rs| - 1;
    var init := rs[..n];
    assert forall i :: 0 <= i < n ==> init[i] == rs[i];
    if Collect(init).Err? {
      CollectFirstError(init);
      var i :| 0 <= i < n && init[i] == Err(Collect(init).error) && forall j :: 0 <= j < i ==> init[j].Ok?;
      assert rs[i] == Err(Collect(rs).error);
    } else {
      CollectOk(init);
      assert rs[n] == Err(Collect(rs).error);
    }
  }

  /** Once a prefix of the run fails, later steps change nothing. */
  lemma {:induction false} CollectErrorSticks<T>(rs: seq<Result<T>>, n: nat)
    requires n <= |rs| && Collect(rs[..n]).Err?
    ensures Collect(rs) == Collect(rs[..n])
    decreases |rs| - n
  {
    if n < |rs| {
      assert rs[..n + 1][..n] == rs[..n];
      CollectErrorSticks(rs, n + 1);
    } else {
      assert rs[..n] == rs;
    }
  }

  /** One more successful step appends its value. */
  lemma CollectSnoc<T>(rs: seq<Result<T>>, n: nat, vs: seq<T>)
    requires n < |rs| && Collect(rs[..n]) == Ok(vs) && rs[n].Ok?
    ensures Collect(rs[..n + 1]) == Ok(vs + [rs[n].value])
  {
    assert rs[..n + 1][..n] == rs[..n];
  }

  /** One more failing step after a successful prefix fails with its error. */
  /** The whole run is its own longest prefix. */
  lemma CollectWhole<T>(rs: seq<Result<T>>)
    ensures Collect(rs[..|rs|]) == Collect(rs)
  {
    assert rs[..|rs|] == rs;
  }

  lemma CollectSnocErr<T>(rs: seq<Result<T>>, n: nat)
    requires n < |rs| && Collect(rs[..n]).Ok? && rs[n].Err?
    ensures Collect(rs) == Err(rs[n].error)
  {
    assert rs[..n + 1][..n] == rs[..n];
    CollectErrorSticks(rs, n + 1);
  }
}
