# Accumulating validation, modelled in Dafny

This project models `src/validation.rs` of nixpkgs-vet. That file defines the
result type that every check of the tool returns. A check either succeeds with
a value (`Success`) or fails with a list of problems (`Failure`). The
combinators merge the results of independent checks so that every problem is
reported, left before right and in the original order, instead of stopping at
the first one. A second layer on top separates fatal errors, such as I/O errors
that mean the checking process itself broke, from validation problems, which can
be fixed by changing the files under check.

Everything is in `validation.dfy`, module `Validation`:

- `Validation<A, P>` is the two-variant sum `Failure(problems: seq<P>) | Success(value: A)`.
- `Result<T, E>` is `Ok(value) | Err(error)`. It stands for both `std::result::Result`
  and `anyhow::Result`.
- `CheckResult<A, P, E>` is the alias `Result<Validation<A, P>, E>` (the source's `Result<A>`).
- The problem type and the fatal error type are defined outside this file. Here
  they are the type parameters `P` and `E`.
- `WellFormed(v)` states the convention that a `Failure` carries at least one problem.
  `Problems(v)` is the problem list of `v`, and empty for a `Success`.
- `sequence` is a pipeline of `partition_map` and `concat`. It is modelled by
  `FailureLists` (the `Left` half), `SuccessValues` (the `Right` half) and
  `Concat`. `AllProblems` and `SequenceByAnd` are independent reference
  definitions for its contract and its lemmas.

`sequence` does not decide success by checking that every element is a
`Success`. It checks whether the flattened problem list is empty
(src/validation.rs:115). So an element `Failure([])` contributes nothing, and the
result can be a `Success` holding fewer values than there were inputs. The
model keeps this behaviour. `Sequence` is characterised without any
precondition: it succeeds exactly when no element reports a problem. The
statement "succeeds exactly when every element succeeds" (`SequenceSuccessIff`)
and the agreement with a fold of `and` (`SequenceAgreesWithAnd`) are proved for
well-formed inputs only. `SequenceDropsEmptyFailure` and
`SequenceDiffersFromAndOnEmptyFailure` show what happens without that
precondition. The doc comment at src/validation.rs:97-99 says that all
validations must succeed for the result to succeed. The code differs from that
only for the empty failure, which no combinator here produces (`Sequence`
always yields a well-formed result, and `Map`, `And` and `AndUnit` preserve
well-formedness). The model follows the code.

## Model

| member | source | states |
|---|---|---|
| `Validation.WellFormedSuccessIff` | src/validation.rs:14-17 | for a failure with at least one problem, being a success is the same as reporting no problems |
| `Validation.FromProblem` | src/validation.rs:19-23 | one problem becomes a failure of any value type with exactly that problem, and that failure is well-formed |
| `Validation.Map` | src/validation.rs:58-63 | the result is a success exactly when the input is; the problems are unchanged; a success holds `f` of the input value; well-formedness is preserved |
| `Validation.ResultMap` | src/validation.rs:67-72 | a failure becomes `Ok` of the same failure, so a fatal error can only come from `f`; a success gives `f` of its value verbatim |
| `Validation.ResultMapOfTotalCheck` | src/validation.rs:58-72 | chaining a check that always completes successfully is `Ok` of `Map` |
| `Validation.And` | src/validation.rs:86-92 | success exactly when both sides succeed; the problems are the left problems then the right problems; a success holds `f` of both values; well-formedness is preserved |
| `Validation.AndTruthTable` | src/validation.rs:87-91 | the four cases: `Success(f(a, b))`; `Failure(l + r)`; and in a mixed pair, the failing side's list unchanged |
| `Validation.AndExample` | src/validation.rs:86-92 | `and(Success(1), Success(2), +)` is `Success(3)` |
| `Validation.AndUnit` | src/validation.rs:78-80 | like `And`, and a success holds the right operand's value |
| `Validation.FailureLists` | src/validation.rs:103-109 | with `SuccessValues` it partitions the input: the two sides together have exactly one entry per element, and this side is empty exactly when every element succeeds |
| `Validation.SuccessValues` | src/validation.rs:103-109 | the success values are no more than the inputs, and exactly as many precisely when every input succeeds |
| `Validation.Concat` | src/validation.rs:113 | the flattening is empty exactly when every list in it is empty, the fact the emptiness test at line 115 relies on |
| `Validation.ConcatAppend` | src/validation.rs:113 | flattening a concatenation of lists of lists is the concatenation of the two flattenings |
| `Validation.ConcatPair` | src/validation.rs:89 | flattening two lists, as `concat([errors_l, errors_r])` does, joins them left first |
| `Validation.ConcatFailureListsIsAllProblems` | src/validation.rs:111-113 | flattening the failing elements' lists gives every element's problems concatenated in order |
| `Validation.AllProblemsEmptyIff` | src/validation.rs:113-115 | the concatenation of all problems is empty exactly when no element reports a problem |
| `Validation.Sequence` | src/validation.rs:102-120 | success exactly when no element reports a problem; the result's problems are all elements' problems in order; a success holds the success values in order; the result is always well-formed |
| `Validation.SequenceEmpty` | src/validation.rs:102-117 | an empty input gives `Success([])` |
| `Validation.SuccessValuesOfAllSuccess` | src/validation.rs:103-109 | when every element succeeds, the success values are every element's value in order |
| `Validation.SequenceAllSuccess` | src/validation.rs:102-117 | when every element succeeds, the result is a success holding each value at its original position |
| `Validation.SequenceFailure` | src/validation.rs:113-119 | when the concatenated problems are not empty, the result is exactly `Failure` of them and the success values are dropped |
| `Validation.SequenceSuccessIff` | src/validation.rs:95-101 | for well-formed inputs, success exactly when every element succeeds |
| `Validation.SequenceSuccessLength` | src/validation.rs:115-116 | a success holds at most one value per input, and one per input exactly when every input succeeded |
| `Validation.SequenceDropsEmptyFailure` | src/validation.rs:113-116 | an empty `Failure` next to a `Success(x)` gives `Success([x])` |
| `Validation.AllProblemsAppend` | src/validation.rs:111-113 | the problems of a concatenated input are the problems of the first part then of the second |
| `Validation.SuccessValuesAppend` | src/validation.rs:103-109 | the success values of a concatenated input are those of the first part then of the second |
| `Validation.SequenceAppend` | src/validation.rs:102-120 | sequencing a concatenation equals `And` of the two parts' sequences, joining the value lists |
| `Validation.SequenceCons` | src/validation.rs:86-120 | `Sequence` of a well-formed element in front of a rest is `And` of that element with the rest's `Sequence`, prepending the value |
| `Validation.SequenceAgreesWithAnd` | src/validation.rs:86-120 | for well-formed inputs, `Sequence` equals folding the inputs from the right with `And` |
| `Validation.SequenceDiffersFromAndOnEmptyFailure` | src/validation.rs:88-119 | on `[Failure([])]` the fold of `And` gives `Failure([])` while `Sequence` gives `Success([])` |
| `Validation.SequenceExample` | src/validation.rs:102-120 | `Success(1)`, failure "bad-name", failure "bad-ext" give `Failure(["bad-name", "bad-ext"])` |
| `Validation.SequenceUnit` | src/validation.rs:123-125 | success exactly when `Sequence` succeeds, with the same problems as `Sequence` |
| `Validation.CollectVec` | src/validation.rs:41-53 | `Ok` exactly when every element is `Ok`, and then it holds every value in order; otherwise it is the error of the first `Err` |
| `Validation.CollectVecShortCircuits` | src/validation.rs:49-52 | after `Ok` elements and an `Err(e)`, the result is `Err(e)` whatever follows |

## Left out

- The internals of `Problem` (src/validation.rs:1) and of `anyhow::Error`: both are foreign types, modelled as the type parameters `P` and `E`.
- The generic `Into<Problem>` bound of the `From` conversion: `FromProblem` takes a problem directly.
- That `map`, `result_map` and `and` do not call their closure on a failure: Dafny functions have no side effects, so only the resulting values are stated.
- Iterator laziness, `IntoIterator` inputs and the cost of flattening in `sequence`: inputs are sequences, and the cost remark at src/validation.rs:111-112 has no effect on results.
- `collect_vec` is defined through `collect` on an iterator: it is modelled as a recursive function over a sequence, which stops at the first `Err`.
- Ownership and moves of the operands: values in Dafny are immutable and are never aliased in a way that could be observed.
