/** Failure-compatible wrappers shared by every layer of the converter.

    The converter signals malformed input by raising `ValueError`; here every
    such raise becomes a `Failure` carrying one `Error` variant, so callers see
    the error path in the types instead of in a precondition.
 */
module Results {

  /** The optional value Python writes as `None` or a value. */
  datatype Option<+T> = None | Some(value: T)

  /** One variant per distinct `raise` in the converter. */
  datatype Error =
    | UnclosedDelimiter        // an inline delimiter occurs an odd number of times
    | InvalidHeading(level: nat) // the heading has no text after its hashes and space
    | InvalidCodeBlock         // a code block is not fenced by three backticks
    | InvalidQuoteBlock        // a quote line does not start with '>'
    | NoTitle                  // no line of the document is a level-one heading
    | NotImplemented           // the base node type cannot render itself

  datatype Result<+T> = Success(value: T) | Failure(error: Error) {

    predicate IsFailure() {
      Failure?
    }

    function PropagateFailure<U>(): Result<U>
      requires Failure?
    {
      Failure(error)
    }

    function Extract(): T
      requires Success?
    {
      value
    }
  }

  /** Two fallible list computations run one after the other: the earlier
      failure wins, otherwise the lists are concatenated. */
  function Then<T>(x: Result<seq<T>>, y: Result<seq<T>>): (r: Result<seq<T>>)
    ensures r.Failure? <==> x.Failure? || y.Failure?
    ensures x.Failure? ==> r == x
    ensures r.Success? ==> r.value == x.value + y.value
  {
    if x.Failure? then x else if y.Failure? then y else Success(x.value + y.value)
  }

  /** `f` applied to each item in order, as a loop that stops at the first
      failure: the result fails exactly when some item fails, with the error
      of the earliest failing item; otherwise it holds one result per item. */
  function MapResult<T, U>(f: T -> Result<U>, xs: seq<T>): (r: Result<seq<U>>)
    ensures r.Failure? <==> exists k :: 0 <= k < |xs| && f(xs[k]).Failure?
    ensures r.Failure? ==> exists k :: 0 <= k < |xs| && f(xs[k]) == Failure(r.error) && forall j :: 0 <= j < k ==> f(xs[j]).Success?
    ensures r.Success? ==> |r.value| == |xs| && forall k :: 0 <= k < |xs| ==> f(xs[k]) == Success(r.value[k])
  {
    if |xs| == 0 then
      Success([])
    else
      var first := f(xs[0]);
      var rest := MapResult(f, xs[1..]);
      assert forall k :: 1 <= k < |xs| ==> xs[k] == xs[1..][k - 1];
      if first.Failure? then
        Failure(first.error)
      else if rest.Failure? then
        var k :| 0 <= k < |xs[1..]| && f(xs[1..][k]) == Failure(rest.error) && forall j :: 0 <= j < k ==> f(xs[1..][j]).Success?;
        assert f(xs[k + 1]) == Failure(rest.error);
        Failure(rest.error)
      else
        Success([first.value] + rest.value)
  }

  lemma ThenAssociative<T>(x: Result<seq<T>>, y: Result<seq<T>>, z: Result<seq<T>>)
    ensures Then(x, Then(y, z)) == Then(Then(x, y), z)
  {
    if x.Success? && y.Success? && z.Success? {
      assert x.value + (y.value + z.value) == (x.value + y.value) + z.value;
    }
  }

  lemma ThenUnit<T>(y: Result<seq<T>>)
    ensures Then(Success([]), y) == y
  {
    if y.Success? {
      assert [] + y.value == y.value;
    }
  }

  lemma ThenUnitRight<T>(x: Result<seq<T>>)
    ensures Then(x, Success([])) == x
  {
    if x.Success? {
      assert x.value + [] == x.value;
    }
  }
}
