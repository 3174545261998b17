/** Failure-compatible result types and the failures the adapters can raise. */
module Wrappers {

  datatype Option<+T> = None | Some(value: T)

  /** Either a value or the failure that stopped the computation. */
  datatype Result<+T> = Success(value: T) | Failure(error: Error) {

    predicate IsFailure() {
      Failure?
    }

    function PropagateFailure<U>(): Result<U>
      requires Failure?
    {
      Failure(error)
    }

    function Extract(): T
      requires Success?
    {
      value
    }
  }

  /** Applies `f` to every element in order: all the results when every
      application succeeds, otherwise the failure of the first one that
      does not. */
  function MapAll<A, B>(f: A -> Result<B>, xs: seq<A>): (r: Result<seq<B>>)
    ensures r.Success? <==> forall i :: 0 <= i < |xs| ==> f(xs[i]).Success?
    ensures r.Success? ==> && |r.value| == |xs|
                           && forall i :: 0 <= i < |xs| ==> f(xs[i]) == Success(r.value[i])
    ensures r.Failure? ==> exists i :: && 0 <= i < |xs| && f(xs[i]) == Failure(r.error)
                                       && forall j :: 0 <= j < i ==> f(xs[j]).Success?
  {
    if |xs| == 0 then Success([])
    else
      var y :- f(xs[0]);
      var ys :- MapAll(f, xs[1..]);
      Success([y] + ys)
  }

  /** What one step contributes to `FilterMap`: its value, if it has one. */
  function Kept<B>(o: Option<B>): seq<B> {
    match o
    case None => []
    case Some(y) => [y]
  }

  /** Applies `f` to every element in order and keeps the values it yields:
      all of them when every application succeeds, otherwise the failure of
      the first one that does not. */
  function FilterMap<A, B>(f: A -> Result<Option<B>>, xs: seq<A>): (r: Result<seq<B>>)
    ensures r.Success? <==> forall i :: 0 <= i < |xs| ==> f(xs[i]).Success?
    ensures r.Success? ==> |r.value| <= |xs|
    ensures r.Success? ==> (|r.value| == 0 <==> forall i :: 0 <= i < |xs| ==> f(xs[i]).value.None?)
  {
    if |xs| == 0 then Success([])
    else
      assert forall i :: 1 <= i < |xs| ==> xs[i] == xs[1..][i - 1];
      var y :- f(xs[0]);
      var ys :- FilterMap(f, xs[1..]);
      Success(Kept(y) + ys)
  }

  /** A single element contributes its kept value, or its failure. */
  lemma FilterMapSingle<A, B>(f: A -> Result<Option<B>>, x: A)
    ensures f(x).Failure? ==> FilterMap(f, [x]) == Failure(f(x).error)
    ensures f(x).Success? ==> FilterMap(f, [x]) == Success(Kept(f(x).value))
  {
    assert [x][1..] == [];
    if f(x).Success? {
      assert Kept(f(x).value) + [] == Kept(f(x).value);
    }
  }

  /** Filtering two runs is filtering each and concatenating: the kept
      values follow input order. */
  lemma {:induction false} FilterMapAppend<A, B>(f: A -> Result<Option<B>>, first: seq<A>, second: seq<A>)
    requires FilterMap(f, first + second).Success?
    ensures FilterMap(f, first).Success? && FilterMap(f, second).Success?
    ensures FilterMap(f, first + second).value == FilterMap(f, first).value + FilterMap(f, second).value
    decreases |first|
  {
    var all := first + second;
    if |first| == 0 {
      assert all == second;
    } else {
      assert all[0] == first[0];
      assert all[1..] == first[1..] + second;
      FilterMapAppend(f, first[1..], second);
      var head := Kept(f(first[0]).value);
      var rest1 := FilterMap(f, first[1..]).value;
      var rest2 := FilterMap(f, second).value;
      assert head + (rest1 + rest2) == (head + rest1) + rest2;
    }
  }

  /** Every kept value is the value of some element's step. */
  lemma {:induction false} FilterMapFrom<A, B>(f: A -> Result<Option<B>>, xs: seq<A>, k: nat)
    requires FilterMap(f, xs).Success? && k < |FilterMap(f, xs).value|
    ensures exists i :: 0 <= i < |xs| && f(xs[i]) == Success(Some(FilterMap(f, xs).value[k]))
    decreases |xs|
  {
    var y := f(xs[0]).value;
    var rest := FilterMap(f, xs[1..]).value;
    assert FilterMap(f, xs).value == Kept(y) + rest;
    if y.Some? && k == 0 {
      assert f(xs[0]) == Success(Some(FilterMap(f, xs).value[k]));
    } else {
      var j := k - |Kept(y)|;
      assert FilterMap(f, xs).value[k] == rest[j];
      FilterMapFrom(f, xs[1..], j);
      var i :| 0 <= i < |xs[1..]| && f(xs[1..][i]) == Success(Some(rest[j]));
      assert xs[1..][i] == xs[i + 1];
    }
  }

  /** Every value a step yields is kept. */
  lemma {:induction false} FilterMapHas<A, B>(f: A -> Result<Option<B>>, xs: seq<A>, i: nat)
    requires FilterMap(f, xs).Success? && i < |xs| && f(xs[i]).value.Some?
    ensures f(xs[i]).value.value in FilterMap(f, xs).value
    decreases |xs|
  {
    var rest := FilterMap(f, xs[1..]).value;
    assert FilterMap(f, xs).value == Kept(f(xs[0]).value) + rest;
    if i > 0 {
      assert xs[1..][i - 1] == xs[i];
      FilterMapHas(f, xs[1..], i - 1);
    }
  }

  /** Every way a modelled operation can fail.  In the Python code most of these
      surface as an IndexError, KeyError or ValueError; here they are named. */
  datatype Error =
    | NoSuchProperty(entity: string, property: string)  // no property of that name on the individual
    | NoValue(entity: string, property: string)         // the property holds an empty list
    | NoConclusion                                       // a rule without conclusions rendered as text
    | UnsupportedTermCount(count: nat)                   // a term space that is not three terms long
    | MissingOutput(variable: string)                    // inference returned no value for a target
    | UnknownTerm(variable: string, term: string)        // a rule names a term its variable lacks
    | ShortUniverse                                      // a default needs two universe points
    | ShortRow(width: nat)                               // a sheet row lacks a column that is read
}
