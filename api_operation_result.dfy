/** The web app's service-call outcome (Models/ApiOperationResult.cs): a
    success flag, an optional message and a list of errors, built only by
    the `Ok` and `Fail` factories; the generic variant also carries data. */
module ApiOperationResult {
  import opened Wrappers

  datatype ApiResult = ApiResult(succeeded: bool, message: Option<string>, errors: seq<string>)

  /** `Ok(message)`: succeeded, with the message and no errors. */
  function Ok(message: Option<string>): (r: ApiResult)
    ensures r.succeeded && r.message == message && r.errors == []
  {
    ApiResult(true, message, [])
  }

  /** `Fail(errors)`: failed, with the errors and no message. */
  function Fail(errors: seq<string>): (r: ApiResult)
    ensures !r.succeeded && r.message.None? && r.errors == errors
  {
    ApiResult(false, None, errors)
  }

  /** `ApiOperationResult<T>`; `data` is `None` where C# leaves `Data` at its default. */
  datatype ApiResultOf<T> = ApiResultOf(succeeded: bool, message: Option<string>, errors: seq<string>, data: Option<T>)

  function OkWith<T>(data: T, message: Option<string>): (r: ApiResultOf<T>)
    ensures r.succeeded && r.data == Some(data) && r.message == message && r.errors == []
  {
    ApiResultOf(true, message, [], Some(data))
  }

  function FailWith<T>(errors: seq<string>): (r: ApiResultOf<T>)
    ensures !r.succeeded && r.data.None? && r.message.None? && r.errors == errors
  {
    ApiResultOf(false, None, errors, None)
  }

  /** The base-record view of a generic result. */
  function Base<T>(r: ApiResultOf<T>): ApiResult {
    ApiResult(r.succeeded, r.message, r.errors)
  }

  /** What the factories guarantee: a success has no errors and a failure no message. */
  predicate Consistent(r: ApiResult) {
    (r.succeeded ==> r.errors == []) && (!r.succeeded ==> r.message.None?)
  }

  /** The generic factories agree with the plain ones on the base record. */
  lemma GenericAgrees<T>(data: T, message: Option<string>, errors: seq<string>)
    ensures Base(OkWith(data, message)) == Ok(message)
    ensures Base(FailWith<T>(errors)) == Fail(errors)
  {
  }

  /** Every consistent result is the output of exactly one factory, and the
      factories only produce consistent results; in particular no `Ok`
      result equals a `Fail` result. */
  lemma FactoriesCharacterise(r: ApiResult, message: Option<string>, errors: seq<string>)
    ensures Consistent(Ok(message)) && Consistent(Fail(errors))
    ensures Consistent(r) ==> (r.succeeded <==> r == Ok(r.message))
    ensures Consistent(r) ==> (!r.succeeded <==> r == Fail(r.errors))
    ensures Ok(message) != Fail(errors)
  {
  }
}
