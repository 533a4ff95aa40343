/**
 * An accumulating validation result and its combinators (src/validation.rs).
 *
 * A check either succeeds with a value or fails with a list of problems.
 * Combinators merge independent checks so that every problem is reported,
 * left before right, in the original order. A separate two-layer result
 * keeps fatal errors (the checking process broke) apart from validation
 * problems (the input is wrong).
 *
 * The problem type and the fatal error type are foreign to this module, so
 * they are type parameters: `P` for a problem, `E` for a fatal error.
 */
module Validation {

  /** A fatal-or-value result: `Ok` carries a value, `Err` a fatal error. */
  datatype Result<T, E> = Ok(value: T) | Err(error: E)

  /** The outcome of a check: the problems found, or a successful value. */
  datatype Validation<A, P> = Failure(problems: seq<P>) | Success(value: A)

  /** A check that can also fail fatally: fatal error, or a completed validation. */
  type CheckResult<A, P, E> = Result<Validation<A, P>, E>

  /** The problems a validation reports; a success reports none. */
  function Problems<A, P>(v: Validation<A, P>): seq<P>
  {
    match v
    case Failure(ps) => ps
    case Success(_) => []
  }

  /** By convention a failure carries at least one problem. */
  predicate WellFormed<A, P>(v: Validation<A, P>)
  {
    v.Failure? ==> |v.problems| > 0
  }

  predicate AllWellFormed<A, P>(vs: seq<Validation<A, P>>)
  {
    forall i :: 0 <= i < |vs| ==> WellFormed(vs[i])
  }

  /** On a well-formed validation, success and "no problems" coincide. */
  lemma WellFormedSuccessIff<A, P>(v: Validation<A, P>)
    requires WellFormed(v)
    ensures v.Success? <==> |Problems(v)| == 0
  {
  }

  // ---------------------------------------------------------------------
  // Construction and transformation

  /** A single problem, lifted into a failure of any value type. */
  function FromProblem<A, P>(p: P): (v: Validation<A, P>)
    ensures v.Failure? && |Problems(v)| == 1 && Problems(v)[0] == p
    ensures WellFormed(v)
  {
    Failure([p])
  }

  /** Apply `f` to the value of a success; a failure passes through. */
  function Map<A, B, P>(v: Validation<A, P>, f: A -> B): (r: Validation<B, P>)
    ensures r.Success? <==> v.Success?
    ensures Problems(r) == Problems(v)
    ensures r.Success? ==> r.value == f(v.value)
    ensures WellFormed(v) ==> WellFormed(r)
  {
    match v
    case Failure(errs) => Failure(errs)
    case Success(value) => Success(f(value))
  }

  /**
   * Chain a further check that may fail fatally. A failure is reported as a
   * completed failure without consulting `f`; on success the result of `f`
   * is returned as it is, fatal error included.
   */
  function ResultMap<A, B, P, E>(v: Validation<A, P>, f: A -> CheckResult<B, P, E>): (r: CheckResult<B, P, E>)
    ensures v.Failure? ==> r == Ok(Failure(v.problems))
    ensures v.Success? ==> r == f(v.value)
  {
    match v
    case Failure(errs) => Ok(Failure(errs))
    case Success(value) => f(value)
  }

  /** Chaining a check that never fails fatally and always succeeds is `Map`. */
  lemma ResultMapOfTotalCheck<A, B, P, E>(v: Validation<A, P>, g: A -> B)
    ensures ResultMap<A, B, P, E>(v, (a: A) => Ok(Success(g(a)))) == Ok(Map(v, g))
  {
  }

  // ---------------------------------------------------------------------
  // Pairwise accumulation

  /**
   * Combine two validations. The result succeeds exactly when both do, and
   * its problems are the left problems followed by the right problems.
   */
  function And<A, B, C, P>(l: Validation<A, P>, r: Validation<B, P>, f: (A, B) -> C): (out: Validation<C, P>)
    ensures out.Success? <==> l.Success? && r.Success?
    ensures Problems(out) == Problems(l) + Problems(r)
    ensures out.Success? ==> out.value == f(l.value, r.value)
    ensures WellFormed(l) && WellFormed(r) ==> WellFormed(out)
  {
    match (l, r)
    case (Success(a), Success(b)) => Success(f(a, b))
    case (Failure(errorsL), Failure(errorsR)) => Failure(errorsL + errorsR)
    case (Failure(errors), Success(_)) => Failure(errors)
    case (Success(_), Failure(errors)) => Failure(errors)
  }

  /** `And` for a left side that carries no value: keep the right value. */
  function AndUnit<B, P>(l: Validation<(), P>, r: Validation<B, P>): (out: Validation<B, P>)
    ensures out.Success? <==> l.Success? && r.Success?
    ensures Problems(out) == Problems(l) + Problems(r)
    ensures out.Success? ==> out.value == r.value
    ensures WellFormed(l) && WellFormed(r) ==> WellFormed(out)
  {
    And(l, r, (u: (), b: B) => b)
  }

  /** The truth table of `And`, case by case. */
  lemma AndTruthTable<A, B, C, P>(l: Validation<A, P>, r: Validation<B, P>, f: (A, B) -> C)
    ensures l.Success? && r.Success? ==> And(l, r, f) == Success(f(l.value, r.value))
    ensures l.Failure? && r.Failure? ==> And(l, r, f) == Failure(l.problems + r.problems)
    ensures l.Failure? && r.Success? ==> And(l, r, f) == Failure(l.problems)
    ensures l.Success? && r.Failure? ==> And(l, r, f) == Failure(r.problems)
  {
  }

  lemma AndExample()
    ensures And<int, int, int, string>(Success(1), Success(2), (a: int, b: int) => a + b) == Success(3)
  {
  }

  // ---------------------------------------------------------------------
  // N-ary accumulation

  /**
   * The problem lists of the failing elements, in order. Together with
   * `SuccessValues` it partitions the input: every element lands on
   * exactly one side.
   */
  function FailureLists<A, P>(vs: seq<Validation<A, P>>): (r: seq<seq<P>>)
    ensures |r| + |SuccessValues(vs)| == |vs|
    ensures |r| == 0 <==> forall i :: 0 <= i < |vs| ==> vs[i].Success?
  {
    if |vs| == 0 then []
    else match vs[0]
      case Failure(errs) => [errs] + FailureLists(vs[1..])
      case Success(_) => FailureLists(vs[1..])
  }

  /** The values of the succeeding elements, in order. */
  function SuccessValues<A, P>(vs: seq<Validation<A, P>>): (r: seq<A>)
    ensures |r| <= |vs|
    ensures |r| == |vs| <==> forall i :: 0 <= i < |vs| ==> vs[i].Success?
  {
    if |vs| == 0 then []
    else
      var rest := SuccessValues(vs[1..]);
      assert forall i :: 1 <= i < |vs| ==> vs[i] == vs[1..][i - 1];
      match vs[0]
      case Failure(_) => rest
      case Success(value) => [value] + rest
  }

  /** The concatenation of a list of lists, in order. */
  function Concat<P>(ss: seq<seq<P>>): (r: seq<P>)
    ensures |r| == 0 <==> forall i :: 0 <= i < |ss| ==> |ss[i]| == 0
  {
    if |ss| == 0 then []
    else
      assert forall i :: 1 <= i < |ss| ==> ss[i] == ss[1..][i - 1];
      ss[0] + Concat(ss[1..])
  }

  /** Concatenating two lists of lists concatenates their flattenings. */
  lemma {:induction false} ConcatAppend<P>(ss: seq<seq<P>>, ts: seq<seq<P>>)
    ensures Concat(ss + ts) == Concat(ss) + Concat(ts)
  {
    if |ss| > 0 {
      assert (ss + ts)[0] == ss[0];
      assert (ss + ts)[1..] == ss[1..] + ts;
      ConcatAppend(ss[1..], ts);
    } else {
      assert ss + ts == ts;
    }
  }

  /** Flattening two lists is joining them, left first. */
  lemma ConcatPair<P>(l: seq<P>, r: seq<P>)
    ensures Concat([l, r]) == l + r
  {
    assert [l, r][1..] == [r];
    assert [l, r][1..][1..] == [];
  }

  /** Every element's problems, concatenated in order (successes contribute none). */
  function AllProblems<A, P>(vs: seq<Validation<A, P>>): seq<P>
  {
    if |vs| == 0 then [] else Problems(vs[0]) + AllProblems(vs[1..])
  }

  lemma {:induction false} ConcatFailureListsIsAllProblems<A, P>(vs: seq<Validation<A, P>>)
    ensures Concat(FailureLists(vs)) == AllProblems(vs)
  {
    if |vs| > 0 {
      ConcatFailureListsIsAllProblems(vs[1..]);
      match vs[0]
      case Failure(errs) =>
        var ss := [errs] + FailureLists(vs[1..]);
        assert ss[0] == errs && ss[1..] == FailureLists(vs[1..]);
      case Success(_) =>
    }
  }

  lemma {:induction false} AllProblemsEmptyIff<A, P>(vs: seq<Validation<A, P>>)
    ensures |AllProblems(vs)| == 0 <==> forall i :: 0 <= i < |vs| ==> |Problems(vs[i])| == 0
  {
    if |vs| > 0 {
      AllProblemsEmptyIff(vs[1..]);
      assert forall i :: 1 <= i < |vs| ==> vs[i] == vs[1..][i - 1];
    }
  }

  /**
   * Combine many validations. The decision is made on the concatenated
   * problem lists: if it is empty the result is the success values in
   * order, otherwise it is that concatenation.
   */
  function Sequence<A, P>(vs: seq<Validation<A, P>>): (r: Validation<seq<A>, P>)
    ensures r.Success? <==> forall i :: 0 <= i < |vs| ==> |Problems(vs[i])| == 0
    ensures Problems(r) == AllProblems(vs)
    ensures r.Success? ==> r.value == SuccessValues(vs)
    ensures WellFormed(r)
  {
    var flattened := Concat(FailureLists(vs));
    ConcatFailureListsIsAllProblems(vs);
    AllProblemsEmptyIff(vs);
    if |flattened| == 0 then Success(SuccessValues(vs)) else Failure(flattened)
  }

  /** `Sequence` for values that carry nothing. */
  function SequenceUnit<P>(vs: seq<Validation<(), P>>): (r: Validation<(), P>)
    ensures r.Success? <==> Sequence(vs).Success?
    ensures Problems(r) == Problems(Sequence(vs))
  {
    Map(Sequence(vs), (_: seq<()>) => ())
  }

  lemma SequenceEmpty<A, P>()
    ensures Sequence<A, P>([]) == Success([])
  {
  }

  lemma {:induction false} SuccessValuesOfAllSuccess<A, P>(vs: seq<Validation<A, P>>)
    requires forall i :: 0 <= i < |vs| ==> vs[i].Success?
    ensures |SuccessValues(vs)| == |vs|
    ensures forall i :: 0 <= i < |vs| ==> SuccessValues(vs)[i] == vs[i].value
  {
    if |vs| > 0 {
      assert forall i :: 1 <= i < |vs| ==> vs[i] == vs[1..][i - 1];
      SuccessValuesOfAllSuccess(vs[1..]);
    }
  }

  /** When every element succeeds, the result holds every value in order. */
  lemma SequenceAllSuccess<A, P>(vs: seq<Validation<A, P>>)
    requires forall i :: 0 <= i < |vs| ==> vs[i].Success?
    ensures Sequence(vs).Success?
    ensures |Sequence(vs).value| == |vs|
    ensures forall i :: 0 <= i < |vs| ==> Sequence(vs).value[i] == vs[i].value
  {
    SuccessValuesOfAllSuccess(vs);
  }

  /** Any problem at all makes the result a failure with exactly those problems. */
  lemma SequenceFailure<A, P>(vs: seq<Validation<A, P>>)
    requires AllProblems(vs) != []
    ensures Sequence(vs) == Failure(AllProblems(vs))
  {
  }

  /** For well-formed inputs, `Sequence` succeeds exactly when every element does. */
  lemma SequenceSuccessIff<A, P>(vs: seq<Validation<A, P>>)
    requires AllWellFormed(vs)
    ensures Sequence(vs).Success? <==> forall i :: 0 <= i < |vs| ==> vs[i].Success?
  {
    forall i | 0 <= i < |vs|
      ensures vs[i].Success? <==> |Problems(vs[i])| == 0
    {
      WellFormedSuccessIff(vs[i]);
    }
  }

  /** A success holds one value per input exactly when every input succeeded. */
  lemma SequenceSuccessLength<A, P>(vs: seq<Validation<A, P>>)
    requires Sequence(vs).Success?
    ensures |Sequence(vs).value| <= |vs|
    ensures |Sequence(vs).value| == |vs| <==> forall i :: 0 <= i < |vs| ==> vs[i].Success?
  {
  }

  /**
   * An empty failure contributes nothing: the result succeeds, with fewer
   * values than inputs.
   */
  lemma SequenceDropsEmptyFailure<A, P>(x: A)
    ensures Sequence<A, P>([Failure([]), Success(x)]) == Success([x])
  {
    var vs: seq<Validation<A, P>> := [Failure([]), Success(x)];
    assert vs[1..] == [Success(x)];
    assert vs[1..][1..] == [];
    assert SuccessValues(vs[1..]) == [x];
    assert AllProblems(vs[1..]) == [];
  }

  /** Splitting the input splits the result as `And` does. */
  lemma {:induction false} AllProblemsAppend<A, P>(xs: seq<Validation<A, P>>, ys: seq<Validation<A, P>>)
    ensures AllProblems(xs + ys) == AllProblems(xs) + AllProblems(ys)
  {
    if |xs| > 0 {
      assert (xs + ys)[1..] == xs[1..] + ys;
      AllProblemsAppend(xs[1..], ys);
    } else {
      assert xs + ys == ys;
    }
  }

  lemma {:induction false} SuccessValuesAppend<A, P>(xs: seq<Validation<A, P>>, ys: seq<Validation<A, P>>)
    ensures SuccessValues(xs + ys) == SuccessValues(xs) + SuccessValues(ys)
  {
    if |xs| > 0 {
      assert (xs + ys)[0] == xs[0];
      assert (xs + ys)[1..] == xs[1..] + ys;
      SuccessValuesAppend(xs[1..], ys);
    } else {
      assert xs + ys == ys;
    }
  }

  /** `Sequence` of a concatenation is the `And` of the two halves' sequences. */
  lemma SequenceAppend<A, P>(xs: seq<Validation<A, P>>, ys: seq<Validation<A, P>>)
    ensures Sequence(xs + ys) == And(Sequence(xs), Sequence(ys), (a: seq<A>, b: seq<A>) => a + b)
  {
    AllProblemsAppend(xs, ys);
    SuccessValuesAppend(xs, ys);
    var lhs := Sequence(xs + ys);
    var rhs := And(Sequence(xs), Sequence(ys), (a: seq<A>, b: seq<A>) => a + b);
    assert Problems(lhs) == Problems(rhs);
    if lhs.Failure? {
      assert lhs.problems == rhs.problems;
    }
  }

  /** A reference definition: fold the inputs with pairwise `And`. */
  ghost function SequenceByAnd<A, P>(vs: seq<Validation<A, P>>): Validation<seq<A>, P>
  {
    if |vs| == 0 then Success([])
    else And(vs[0], SequenceByAnd(vs[1..]), (a: A, rest: seq<A>) => [a] + rest)
  }

  /** A well-formed element in front joins the rest's result as `And` does. */
  lemma SequenceCons<A, P>(v: Validation<A, P>, rest: seq<Validation<A, P>>)
    requires WellFormed(v)
    ensures Sequence([v] + rest) == And(v, Sequence(rest), (a: A, values: seq<A>) => [a] + values)
  {
    SequenceAppend([v], rest);
    var one := Sequence([v]);
    assert [v][1..] == [];
    assert Problems(one) == Problems(v);
    if v.Success? {
      assert one.value == [v.value];
    } else {
      assert one.problems == v.problems;
    }
    var lhs := Sequence([v] + rest);
    var rhs := And(v, Sequence(rest), (a: A, values: seq<A>) => [a] + values);
    assert Problems(lhs) == Problems(rhs);
    if lhs.Failure? {
      assert lhs.problems == rhs.problems;
    }
  }

  /** On well-formed inputs, `Sequence` agrees with the fold of `And`. */
  lemma {:induction false} SequenceAgreesWithAnd<A, P>(vs: seq<Validation<A, P>>)
    requires AllWellFormed(vs)
    ensures Sequence(vs) == SequenceByAnd(vs)
  {
    if |vs| > 0 {
      var rest := vs[1..];
      assert AllWellFormed(rest) by {
        assert forall i :: 0 <= i < |rest| ==> rest[i] == vs[i + 1];
      }
      SequenceAgreesWithAnd(rest);
      assert WellFormed(vs[0]);
      assert vs == [vs[0]] + rest;
      SequenceCons(vs[0], rest);
    }
  }

  /** Without well-formedness the two differ: an empty failure is kept by `And`. */
  lemma SequenceDiffersFromAndOnEmptyFailure<A, P>()
    ensures Sequence<A, P>([Failure([])]) == Success([])
    ensures SequenceByAnd<A, P>([Failure([])]) == Failure([])
  {
    var vs: seq<Validation<A, P>> := [Failure([])];
    assert vs[1..] == [];
  }

  lemma SequenceExample()
    ensures Sequence([Success(1), FromProblem("bad-name"), FromProblem("bad-ext")])
         == Failure(["bad-name", "bad-ext"])
  {
    var vs: seq<Validation<int, string>> := [Success(1), FromProblem("bad-name"), FromProblem("bad-ext")];
    assert vs[1..] == [FromProblem("bad-name"), FromProblem("bad-ext")];
    assert vs[1..][1..] == [FromProblem("bad-ext")];
    assert vs[1..][1..][1..] == [];
  }

  // ---------------------------------------------------------------------
  // Fatal-error collection

  /**
   * Collect fatal-or-value results into one: the first fatal error if there
   * is one, otherwise all values in order. Collection stops at that error.
   */
  function CollectVec<A, E>(rs: seq<Result<A, E>>): (r: Result<seq<A>, E>)
    ensures r.Ok? <==> forall i :: 0 <= i < |rs| ==> rs[i].Ok?
    ensures r.Ok? ==> |r.value| == |rs| && forall i :: 0 <= i < |rs| ==> rs[i] == Ok(r.value[i])
    ensures r.Err? ==>
      exists k :: 0 <= k < |rs| && rs[k] == Err(r.error) && forall j :: 0 <= j < k ==> rs[j].Ok?
  {
    if |rs| == 0 then Ok([])
    else
      assert forall i :: 1 <= i < |rs| ==> rs[i] == rs[1..][i - 1];
      match rs[0]
      case Err(e) => Err(e)
      case Ok(a) =>
        match CollectVec(rs[1..])
        case Err(e) =>
          ghost var k :| 0 <= k < |rs[1..]| && rs[1..][k] == Err(e) && forall j :: 0 <= j < k ==> rs[1..][j].Ok?;
          assert rs[k + 1] == Err(e);
          Err(e)
        case Ok(values) => Ok([a] + values)
  }

  /** Whatever follows the first fatal error plays no part in the result. */
  lemma {:induction false} CollectVecShortCircuits<A, E>(xs: seq<Result<A, E>>, e: E, ys: seq<Result<A, E>>)
    requires forall j :: 0 <= j < |xs| ==> xs[j].Ok?
    ensures CollectVec(xs + [Err(e)] + ys) == Err(e)
  {
    var rs := xs + [Err(e)] + ys;
    if |xs| == 0 {
      assert rs[0] == Err(e);
    } else {
      assert rs[0] == xs[0];
      assert rs[1..] == xs[1..] + [Err(e)] + ys;
      CollectVecShortCircuits(xs[1..], e, ys);
    }
  }
}
