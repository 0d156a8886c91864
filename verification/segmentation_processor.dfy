/**
 * SegmentationProcessor.isValidSegment: folds the verdicts of the configured
 * segmentation resolvers into one, in array order, with Java's short-circuit
 * `&&`, turning an Exception thrown by a resolver into `false`.
 */
module SegmentationProcessing {

  /**
   * What one resolver's isValidSegment does when it is called: it returns a
   * verdict, or throws a java.lang.Exception (which the catch clause absorbs).
   * The resolvers themselves are outside this model.
   */
  datatype Answer = Returned(verdict: bool) | Threw

  const SEGMENTATION_NOTICE: string := "Network segmentation detected!"

  /** An answer that keeps the accumulated verdict true. */
  predicate Passes(a: Answer) {
    a == Returned(true)
  }

  /**
   * The accumulator after the remaining resolvers, starting from `valid`:
   * a resolver is only called while the accumulator is still true.
   */
  function Accumulate(valid: bool, answers: seq<Answer>): (r: bool)
    ensures r ==> valid
    ensures r <==> valid && forall i :: 0 <= i < |answers| ==> Passes(answers[i])
  {
    if answers == [] then valid
    else if !valid then Accumulate(false, answers[1..])
    else Accumulate(Passes(answers[0]), answers[1..])
  }

  /**
   * How many resolvers are called: all of them, or those up to and including
   * the first one that returns false or throws.
   */
  function InvokedCount(answers: seq<Answer>): (n: nat)
    ensures n <= |answers|
    ensures forall j :: 0 <= j < n - 1 ==> Passes(answers[j])
    ensures n < |answers| ==> 0 < n && !Passes(answers[n - 1])
    ensures answers != [] ==> 0 < n
  {
    if answers == [] then 0
    else if !Passes(answers[0]) then 1
    else 1 + InvokedCount(answers[1..])
  }

  /** Every resolver is called when the verdict is true; one is skipped only after a failure. */
  lemma SkippedMeansInvalid(answers: seq<Answer>)
    ensures Accumulate(true, answers) ==> InvokedCount(answers) == |answers|
    ensures InvokedCount(answers) < |answers| ==> !Accumulate(true, answers)
  {
  }

  /**
   * isValidSegment: answers[i] is what the i-th resolver of the array does if
   * it is called. Returns the verdict, the positions of the resolvers called,
   * in call order, and the lines given to the info logger.
   */
  method IsValidSegment(answers: seq<Answer>) returns (valid: bool, invoked: seq<nat>, notices: seq<string>)
    ensures valid <==> forall i :: 0 <= i < |answers| ==> Passes(answers[i])
    ensures valid == Accumulate(true, answers)
    ensures |invoked| == InvokedCount(answers)
    ensures forall j :: 0 <= j < |invoked| ==> invoked[j] == j
    ensures notices == if valid then [] else [SEGMENTATION_NOTICE]
  {
    valid := true;
    invoked := [];
    var i := 0;
    while i < |answers|
      invariant 0 <= i <= |answers|
      invariant valid <==> forall j :: 0 <= j < i ==> Passes(answers[j])
      invariant |invoked| == InvokedCount(answers[..i])
      invariant forall j :: 0 <= j < |invoked| ==> invoked[j] == j
    {
      InvokedCountPrefix(answers, i);
      if valid {
        invoked := invoked + [i];
        match answers[i]
        case Returned(verdict) => valid := verdict;
        case Threw => valid := false;
      }
      i := i + 1;
    }
    assert answers[..i] == answers;
    notices := [];
    if !valid {
      notices := notices + [SEGMENTATION_NOTICE];
    }
  }

  /** One more resolver is called exactly when all the earlier ones passed. */
  lemma InvokedCountPrefix(answers: seq<Answer>, i: nat)
    requires i < |answers|
    ensures (forall j :: 0 <= j < i ==> Passes(answers[j])) ==>
              InvokedCount(answers[..i + 1]) == InvokedCount(answers[..i]) + 1
    ensures !(forall j :: 0 <= j < i ==> Passes(answers[j])) ==>
              InvokedCount(answers[..i + 1]) == InvokedCount(answers[..i])
  {
  }
}
