/**
 * The error taxonomy of MAEErrorCode.h and the result types every operation
 * of the model returns in place of an `NSError**` out-parameter.
 */
module ErrorCodes {
  import opened Options

  /** The six codes that are still available; the deprecated aliases are unusable. */
  datatype ErrorCode =
    | Unknown
    | NilInputData          // conversion was handed nil
    | InvalidInputData      // input of a type other than the expected one
    | NotMatchFragmentType  // a token does not fit its fragment
    | NotMatchFragmentCount // the number of tokens is not allowed by the format
    | NoConversionTarget    // the class-selection hook returned nil

  /** The NSUInteger value the enum gives each code (declaration order from 0). */
  function Code(e: ErrorCode): (n: nat)
    ensures n < 6
  {
    match e
    case Unknown => 0
    case NilInputData => 1
    case InvalidInputData => 2
    case NotMatchFragmentType => 3
    case NotMatchFragmentCount => 4
    case NoConversionTarget => 5
  }

  /** The code carrying a raw value, if any live code does. */
  function FromCode(n: nat): (r: Option<ErrorCode>)
    ensures r.Some? <==> n < 6
  {
    if n == 0 then Some(Unknown)
    else if n == 1 then Some(NilInputData)
    else if n == 2 then Some(InvalidInputData)
    else if n == 3 then Some(NotMatchFragmentType)
    else if n == 4 then Some(NotMatchFragmentCount)
    else if n == 5 then Some(NoConversionTarget)
    else None
  }

  /** Raw values identify codes: the numbering is a bijection onto 0..5. */
  lemma CodeRoundTrip(e: ErrorCode, n: nat)
    ensures FromCode(Code(e)) == Some(e)
    ensures FromCode(n) == Some(e) ==> Code(e) == n
  {
  }

  /** A value-or-error, the success/NSError pair of the Objective-C API. */
  datatype Result<+T> = Ok(value: T) | Err(error: ErrorCode) {
    predicate IsFailure() { Err? }

    function PropagateFailure<U>(): Result<U>
      requires Err?
    {
      Err(error)
    }

    function Extract(): T
      requires Ok?
    {
      value
    }
  }

  /** A YES/NO-with-error answer, as `validateWithSeparatedString:error:` gives. */
  datatype Outcome = Pass | Fail(error: ErrorCode)
}
