/** Splitting a sequence of per-item outcomes into the successful values and
    the failures, each kept in input order, and where each came from. */
module Partition {
  import opened Common

  /** The values of the successful outcomes, in order. */
  function Oks<T, E>(rs: seq<Result<T, E>>): seq<T> {
    if rs == [] then []
    else
      var init := Oks(rs[..|rs| - 1]);
      match rs[|rs| - 1]
      case Success(v) => init + [v]
      case Failure(_) => init
  }

  /** The errors of the failed outcomes, in order. */
  function Errs<T, E>(rs: seq<Result<T, E>>): seq<E> {
    if rs == [] then []
    else
      var init := Errs(rs[..|rs| - 1]);
      match rs[|rs| - 1]
      case Success(_) => init
      case Failure(e) => init + [e]
  }

  /** The positions of the successful (`ok`) or failed (`!ok`) outcomes:
      valid positions, strictly ascending. */
  function Positions<T, E>(rs: seq<Result<T, E>>, ok: bool): (ps: seq<nat>)
    ensures forall k :: 0 <= k < |ps| ==> ps[k] < |rs|
    ensures forall a, b :: 0 <= a < b < |ps| ==> ps[a] < ps[b]
  {
    if rs == [] then []
    else
      var init := Positions(rs[..|rs| - 1], ok);
      if rs[|rs| - 1].Success? == ok then init + [|rs| - 1] else init
  }

  /** Every outcome is counted once, on one side. */
  lemma {:induction false} CountsAddUp<T, E>(rs: seq<Result<T, E>>)
    ensures |Oks(rs)| + |Errs(rs)| == |rs|
  {
    if rs != [] {
      CountsAddUp(rs[..|rs| - 1]);
    }
  }

  /** `Positions` lists exactly the positions of the outcomes on its side. */
  lemma {:induction false} PositionsExact<T, E>(rs: seq<Result<T, E>>, ok: bool)
    ensures forall i :: 0 <= i < |rs| ==> (i in Positions(rs, ok) <==> rs[i].Success? == ok)
  {
    if rs != [] {
      var n := |rs| - 1;
      var init := rs[..n];
      PositionsExact(init, ok);
      var before := Positions(init, ok);
      assert n !in before;
      forall i | 0 <= i < n
        ensures i in Positions(rs, ok) <==> rs[i].Success? == ok
      {
        assert init[i] == rs[i];
      }
    }
  }

  /** The k-th value is the one of the k-th successful outcome. */
  lemma {:induction false} OksAtPositions<T, E>(rs: seq<Result<T, E>>)
    ensures |Oks(rs)| == |Positions(rs, true)|
    ensures forall k :: 0 <= k < |Oks(rs)| ==> rs[Positions(rs, true)[k]] == Success(Oks(rs)[k])
  {
    if rs != [] {
      var init := rs[..|rs| - 1];
      OksAtPositions(init);
      var ps := Positions(init, true);
      forall k | 0 <= k < |ps|
        ensures rs[ps[k]] == init[ps[k]]
      {
      }
    }
  }

  /** The k-th error is the one of the k-th failed outcome. */
  lemma {:induction false} ErrsAtPositions<T, E>(rs: seq<Result<T, E>>)
    ensures |Errs(rs)| == |Positions(rs, false)|
    ensures forall k :: 0 <= k < |Errs(rs)| ==> rs[Positions(rs, false)[k]] == Failure(Errs(rs)[k])
  {
    if rs != [] {
      var init := rs[..|rs| - 1];
      ErrsAtPositions(init);
      var ps := Positions(init, false);
      forall k | 0 <= k < |ps|
        ensures rs[ps[k]] == init[ps[k]]
      {
      }
    }
  }

  /** When every outcome succeeds, the values are all of them, in order, and
      there are no errors. */
  lemma {:induction false} AllSucceed<T, E>(rs: seq<Result<T, E>>)
    requires forall i :: 0 <= i < |rs| ==> rs[i].Success?
    ensures |Oks(rs)| == |rs| && Errs(rs) == []
    ensures forall i :: 0 <= i < |rs| ==> Oks(rs)[i] == rs[i].value
  {
    if rs != [] {
      var init := rs[..|rs| - 1];
      AllSucceed(init);
    }
  }
}
