/**
 * Status validation of a response received by the HTTP client: the integer
 * code a response carries, whether that code counts as a success, and the
 * check that turns an unsuccessful code into an error.
 */
module URLResponseExtensions {

  /** A response as received from the transport: an HTTP response with its
      status code, or a response of some other kind (no status code at all). */
  datatype Response = HTTP(statusCode: int) | NonHTTP

  /** The error thrown by the validity check: a domain (always empty here)
      and the response's code. */
  datatype StatusError = StatusError(domain: string, code: int)

  /** The result of the validity check: it returns normally or throws. */
  datatype Outcome = Pass | Fail(error: StatusError)

  /** A half-open integer range lower..<upper, matched with `~=`. */
  datatype HalfOpenRange = HalfOpenRange(lower: int, upper: int) {
    predicate Contains(x: int) {
      lower <= x < upper
    }
  }

  /** The code reported for a response that is not an HTTP response. */
  const NonHTTPCode: int := -1

  /** The success range as written: 200 included, 299 excluded. */
  const SuccessRange: HalfOpenRange := HalfOpenRange(200, 299)

  /** The response's code: its HTTP status, or -1 when it is not an HTTP response. */
  function Code(r: Response): (c: int)
    ensures r.HTTP? ==> c == r.statusCode
    ensures r.NonHTTP? ==> c == NonHTTPCode
  {
    match r
    case HTTP(s) => s
    case NonHTTP => NonHTTPCode
  }

  /** A response is a success when its code lies in the success range. */
  predicate IsSuccess(r: Response)
    ensures IsSuccess(r) <==> 200 <= Code(r) < 299
  {
    SuccessRange.Contains(Code(r))
  }

  /** Returns normally for a successful response; otherwise fails with an
      error in the empty domain that carries the response's code. */
  function CheckValidity(r: Response): (o: Outcome)
    ensures o.Pass? <==> IsSuccess(r)
    ensures o.Fail? ==> o.error.code == Code(r) && o.error.domain == ""
  {
    if !IsSuccess(r) then Fail(StatusError("", Code(r))) else Pass
  }

  /** The code is all the validator sees: any code other than -1 identifies
      an HTTP response with exactly that status, and -1 is shared by a
      non-HTTP response and an HTTP response with status -1. */
  lemma CodeDeterminesResponse(r: Response)
    ensures Code(r) != NonHTTPCode ==> r == HTTP(Code(r))
    ensures Code(r) == NonHTTPCode <==> r in {HTTP(NonHTTPCode), NonHTTP}
  {
  }

  /** Reference reading of the success range: the 2xx status class with 299
      taken out, so the upper bound excludes the last code of the class. */
  lemma SuccessIsTwoHundredsExceptLast(r: Response)
    ensures IsSuccess(r) <==> r.HTTP? && r.statusCode / 100 == 2 && r.statusCode != 299
  {
  }

  /** Boundary pins: 200 and 298 succeed, 199 and 299 do not. */
  lemma SuccessBoundaries()
    ensures IsSuccess(HTTP(200)) && IsSuccess(HTTP(298))
    ensures !IsSuccess(HTTP(199)) && !IsSuccess(HTTP(299))
  {
  }

  /** A response that is not an HTTP response is never a success. */
  lemma NonHTTPNeverSuccess()
    ensures Code(NonHTTP) == NonHTTPCode && !IsSuccess(NonHTTP)
  {
  }

  /** Concrete outcomes of the check. */
  lemma CheckValidityExamples()
    ensures CheckValidity(HTTP(200)) == Pass
    ensures CheckValidity(HTTP(404)) == Fail(StatusError("", 404))
    ensures CheckValidity(HTTP(500)) == Fail(StatusError("", 500))
    ensures CheckValidity(HTTP(299)) == Fail(StatusError("", 299))
    ensures CheckValidity(NonHTTP) == Fail(StatusError("", NonHTTPCode))
  {
  }
}
