/**
 * The error classifier of the older service (`router/httpErrors`): two cases, both
 * answered with status 400, and an `ApiError` without causes.
 */
module LegacyHttpErrors {
  import opened Wrappers
  import opened Text

  const StatusBadRequest: int := 400

  const CannotMarshal: string := "Could not be marshalled"
  const NotFound: string := "Not Found"
  const JsonKeyword: string := "json: unsupported"

  datatype ApiError = ApiError(status: int, message: string)

  /** `NewApiError`: code and message as given. */
  function NewApiError(code: int, err: string): (r: ApiError)
    ensures Status(r) == code && r.message == err
  {
    ApiError(code, err)
  }

  /** `ApiError.Status`: the stored code. */
  function Status(a: ApiError): (r: int)
    ensures r == a.status
    ensures InInt64(a.status) ==> ReadRendered(Render(a)) == Some(ApiError(r, a.message))
  {
    RenderRoundTrip(a);
    a.status
  }

  const StatusLabel: string := "status: "
  const ErrorsLabel: string := " - errors: "

  /** `ApiError.Error`: "status: %d - errors: %s". */
  function Render(a: ApiError): (r: string)
    ensures |r| >= |StatusLabel| + |ErrorsLabel| + |a.message|
    ensures r[..|StatusLabel|] == StatusLabel
    ensures r[|r| - |a.message|..] == a.message
  {
    StatusLabel + Itoa(a.status) + ErrorsLabel + a.message
  }

  /**
   * Reads a rendered `ApiError` back: the status runs from after the label to the first
   * space, then comes the errors label, and the rest is the message.
   */
  function ReadRendered(text: string): (r: Option<ApiError>)
    ensures r.Some? ==> InInt64(r.value.status)
  {
    if |text| < |StatusLabel| || text[..|StatusLabel|] != StatusLabel then None
    else
      var rest := text[|StatusLabel|..];
      var digits := Before(rest, ' ');
      var tail := rest[|digits|..];
      if |tail| < |ErrorsLabel| || tail[..|ErrorsLabel|] != ErrorsLabel then None
      else
        match Atoi(digits)
        case None => None
        case Some(n) => Some(ApiError(n, tail[|ErrorsLabel|..]))
  }

  /** Every `ApiError` with a 64-bit status is read back from its rendering. */
  lemma RenderRoundTrip(a: ApiError)
    ensures InInt64(a.status) ==> ReadRendered(Render(a)) == Some(a)
  {
    if !InInt64(a.status) { return; }
    var text := Render(a);
    var digits := Itoa(a.status);
    var tail := ErrorsLabel + a.message;
    assert text == StatusLabel + (digits + tail);
    assert text[|StatusLabel|..] == digits + tail;
    BeforeOfConcat(digits, tail, ' ');
    AtoiItoa(a.status);
    assert (digits + tail)[|digits|..] == tail;
  }

  /** `ParseErrors`: 400 for every error; only the message depends on the text. */
  function ParseErrors(text: string): (r: ApiError)
    ensures Status(r) == StatusBadRequest
    ensures r.message == CannotMarshal <==> Contains(text, JsonKeyword)
    ensures r.message == NotFound <==> !Contains(text, JsonKeyword)
  {
    if Contains(text, JsonKeyword) then NewApiError(StatusBadRequest, CannotMarshal)
    else NewApiError(StatusBadRequest, NotFound)
  }
}
