/**
 * The error classifier of the current service (`internal/api/router/httpErrors`):
 * `ParseErrors` turns any error into an `ApiError` with an HTTP status and a fixed
 * message by an ordered substring match on the error's text.
 */
module HttpErrors {
  import opened Wrappers
  import opened Text

  const StatusBadRequest: int := 400
  const StatusNotFound: int := 404
  const StatusInternalServerError: int := 500

  const BadRequest: string := "Bad Request"
  const CannotMarshal: string := "Could not be marshalled"
  const NotFound: string := "Not Found"
  const InternalServerError: string := "Internal Server Error"
  const MissingFields: string := "Missing fields"
  const ExistsObjectIdError: string := "Object with given id already exists"

  /** The keywords `ParseErrors` looks for, in the order it looks. */
  const JsonKeyword: string := "json: unsupported"
  const NotFoundKeyword: string := "not found"
  const RequiredKeyword: string := "is required"
  const SqlKeyword: string := "SQLSTATE"
  const UniqueViolationKeyword: string := "23505"
  const UnmarshalKeyword: string := "Unmarshal"

  /**
   * A Go `error` value as far as the classifier can tell them apart: any error is
   * its `Error()` text, except that an `ApiError` is recognised by its type.
   */
  datatype GoError = Plain(text: string) | Api(api: ApiError)

  /** The `interface{}` causes field: nil, or the error that was classified. */
  datatype Cause = NoCause | Because(err: GoError)

  datatype ApiError = ApiError(status: int, message: string, causes: Cause)

  /** The fixed labels of the rendering, before the status, the message and the causes. */
  const StatusLabel: string := "status: "
  const ErrorsLabel: string := " - errors: "
  const CausesLabel: string := " - causes: "

  /** The "status: %d - errors: %s - causes: %v" layout, given the text of the causes. */
  function Layout(status: int, message: string, causes: string): string {
    StatusLabel + Itoa(status) + ErrorsLabel + message + CausesLabel + causes
  }

  /** The layout starts with the status, which runs up to the first space after the label. */
  lemma LayoutFields(status: int, message: string, causes: string)
    ensures |Layout(status, message, causes)| > |StatusLabel|
    ensures Layout(status, message, causes)[..|StatusLabel|] == StatusLabel
    ensures Before(Layout(status, message, causes)[|StatusLabel|..], ' ') == Itoa(status)
  {
    var tail := ErrorsLabel + message + CausesLabel + causes;
    assert Layout(status, message, causes) == StatusLabel + (Itoa(status) + tail);
    assert Layout(status, message, causes)[|StatusLabel|..] == Itoa(status) + tail;
    BeforeOfConcat(Itoa(status), tail, ' ');
  }

  /** `err.Error()`; for an `ApiError` that is its rendering, where `%v` of an error is its text. */
  function ErrorText(e: GoError): string
    decreases e
  {
    match e
    case Plain(text) => text
    case Api(a) => Layout(a.status, a.message, if a.causes.NoCause? then "<nil>" else ErrorText(a.causes.err))
  }

  /** `%v` of the causes field: "<nil>", or the text of the error kept as cause. */
  function CauseText(c: Cause): string {
    if c.NoCause? then "<nil>" else ErrorText(c.err)
  }

  /** `ApiError.Error`: "status: %d - errors: %s - causes: %v". */
  function Render(a: ApiError): (r: string)
    ensures r == StatusLabel + Itoa(a.status) + ErrorsLabel + a.message + CausesLabel + CauseText(a.causes)
    ensures |r| > |StatusLabel| && r[..|StatusLabel|] == StatusLabel
    ensures Before(r[|StatusLabel|..], ' ') == Itoa(a.status)
  {
    LayoutFields(a.status, a.message, CauseText(a.causes));
    ErrorText(Api(a))
  }

  /**
   * Where the fields sit in a rendering: the message starts right after the status and
   * the errors label, and the rendering ends with the causes label and the cause text.
   */
  lemma RenderFields(a: ApiError)
    ensures var r := Render(a);
      var m := |StatusLabel| + |Itoa(a.status)| + |ErrorsLabel|;
      && m + |a.message| + |CausesLabel| + |CauseText(a.causes)| == |r|
      && r[|StatusLabel| + |Itoa(a.status)|..m] == ErrorsLabel
      && r[m..m + |a.message|] == a.message
      && r[m + |a.message|..m + |a.message| + |CausesLabel|] == CausesLabel
      && r[|r| - |CauseText(a.causes)|..] == CauseText(a.causes)
  {
    var digits := Itoa(a.status);
    var r := Render(a);
    var m := |StatusLabel| + |digits| + |ErrorsLabel|;
    var rest := CausesLabel + CauseText(a.causes);
    assert r == (StatusLabel + digits + ErrorsLabel) + a.message + rest;
    assert r[..m] == StatusLabel + digits + ErrorsLabel;
    assert r[|StatusLabel| + |digits|..m] == r[..m][|StatusLabel| + |digits|..];
    assert r[m..] == a.message + rest;
    assert r[m..m + |a.message|] == r[m..][..|a.message|];
    assert r[m + |a.message|..] == rest;
    assert r[m + |a.message|..m + |a.message| + |CausesLabel|] == rest[..|CausesLabel|];
  }

  /** Reads the status back out of a rendered `ApiError`. */
  function StatusOfRendered(text: string): (r: Option<int>)
    ensures r.Some? ==> InInt64(r.value)
  {
    if |text| < |StatusLabel| || text[..|StatusLabel|] != StatusLabel then None
    else Atoi(Before(text[|StatusLabel|..], ' '))
  }

  /** The rendered text names the status it was made from. */
  lemma RenderStatusRoundTrip(a: ApiError)
    requires InInt64(a.status)
    ensures StatusOfRendered(Render(a)) == Some(a.status)
  {
    AtoiItoa(a.status);
  }

  /** `NewApiError`: the three fields as given. */
  function NewApiError(code: int, err: string, causes: Cause): (r: ApiError)
    ensures r.status == code && r.message == err && r.causes == causes
  {
    ApiError(code, err, causes)
  }

  /** `NewInternalServerError`: status 500 with the fixed message, keeping the causes. */
  function NewInternalServerError(causes: Cause): (r: ApiError)
    ensures r.status == StatusInternalServerError && r.message == InternalServerError
    ensures r.causes == causes
  {
    ApiError(StatusInternalServerError, InternalServerError, causes)
  }

  /** `parseSqlErrors`: 400 either way; the unique-violation code picks the message. */
  function ParseSqlErrors(e: GoError): (r: ApiError)
    ensures r.status == StatusBadRequest && r.causes == Because(e)
    ensures r.message == ExistsObjectIdError <==> Contains(ErrorText(e), UniqueViolationKeyword)
    ensures r.message == BadRequest <==> !Contains(ErrorText(e), UniqueViolationKeyword)
  {
    if Contains(ErrorText(e), UniqueViolationKeyword) then
      NewApiError(StatusBadRequest, ExistsObjectIdError, Because(e))
    else
      NewApiError(StatusBadRequest, BadRequest, Because(e))
  }

  /** The text contains one of the keywords that select a specific answer. */
  predicate HasKeyword(text: string) {
    Contains(text, JsonKeyword) || Contains(text, NotFoundKeyword) || Contains(text, RequiredKeyword)
    || Contains(text, SqlKeyword) || Contains(text, UnmarshalKeyword)
  }

  /** `ParseErrors`: the ordered keyword match, then pass-through or 500. */
  function ParseErrors(e: GoError): (r: ApiError)
    ensures r.causes == Because(e) || (e.Api? && r == e.api)
    ensures (e.Api? && !HasKeyword(ErrorText(e))) ==> r == e.api
    ensures (e.Plain? || HasKeyword(ErrorText(e))) ==>
              r.causes == Because(e) && r.status in {StatusBadRequest, StatusNotFound, StatusInternalServerError}
    ensures r.status == StatusInternalServerError && r.causes == Because(e)
            <==> e.Plain? && !HasKeyword(ErrorText(e))
  {
    var text := ErrorText(e);
    if Contains(text, JsonKeyword) then NewApiError(StatusBadRequest, CannotMarshal, Because(e))
    else if Contains(text, NotFoundKeyword) then NewApiError(StatusNotFound, NotFound, Because(e))
    else if Contains(text, RequiredKeyword) then NewApiError(StatusBadRequest, MissingFields, Because(e))
    else if Contains(text, SqlKeyword) then ParseSqlErrors(e)
    else if Contains(text, UnmarshalKeyword) then NewApiError(StatusBadRequest, BadRequest, Because(e))
    else if e.Api? then e.api
    else NewInternalServerError(Because(e))
  }

  /** A plain error whose text carries none of the keywords is a 500 that keeps it as cause. */
  lemma PlainWithoutKeyword(text: string)
    requires !HasKeyword(text)
    ensures ParseErrors(Plain(text)) == ApiError(StatusInternalServerError, InternalServerError, Because(Plain(text)))
  {
  }

  /** A plain error that first matches at "SQLSTATE" is a 400 whose message depends on "23505". */
  lemma PlainSqlError(text: string)
    requires !Contains(text, JsonKeyword) && !Contains(text, NotFoundKeyword) && !Contains(text, RequiredKeyword)
    requires Contains(text, SqlKeyword)
    ensures ParseErrors(Plain(text))
         == ApiError(StatusBadRequest, if Contains(text, UniqueViolationKeyword) then ExistsObjectIdError else BadRequest, Because(Plain(text)))
  {
  }

  // ---------------------------------------------------------------------------
  // The classification as a table

  /** One line of the table: when the text contains every keyword, answer with this status and message. */
  datatype Rule = Rule(keywords: seq<string>, status: int, message: string)

  /** `ParseErrors` read as a first-match table, the SQL branch flattened into two lines. */
  const Rules: seq<Rule> := [
    Rule([JsonKeyword], StatusBadRequest, CannotMarshal),
    Rule([NotFoundKeyword], StatusNotFound, NotFound),
    Rule([RequiredKeyword], StatusBadRequest, MissingFields),
    Rule([SqlKeyword, UniqueViolationKeyword], StatusBadRequest, ExistsObjectIdError),
    Rule([SqlKeyword], StatusBadRequest, BadRequest),
    Rule([UnmarshalKeyword], StatusBadRequest, BadRequest)
  ]

  predicate Fires(rule: Rule, text: string) {
    forall i :: 0 <= i < |rule.keywords| ==> Contains(text, rule.keywords[i])
  }

  /** The first rule that fires on `text`, if any. */
  function FirstMatch(rules: seq<Rule>, text: string): (r: Option<nat>)
    ensures r.Some? ==> r.value < |rules| && Fires(rules[r.value], text)
    ensures r.Some? ==> forall i :: 0 <= i < r.value ==> !Fires(rules[i], text)
    ensures r.None? ==> forall i :: 0 <= i < |rules| ==> !Fires(rules[i], text)
    decreases |rules|
  {
    if |rules| == 0 then None
    else if Fires(rules[0], text) then Some(0)
    else match FirstMatch(rules[1..], text)
      case None => None
      case Some(k) => Some(k + 1)
  }

  /** The table's answer: the first rule that fires, else pass-through or 500. */
  function Classify(e: GoError): ApiError {
    match FirstMatch(Rules, ErrorText(e))
    case Some(k) => ApiError(Rules[k].status, Rules[k].message, Because(e))
    case None => if e.Api? then e.api else ApiError(StatusInternalServerError, InternalServerError, Because(e))
  }

  lemma FiresOne(rule: Rule, text: string)
    requires |rule.keywords| == 1
    ensures Fires(rule, text) <==> Contains(text, rule.keywords[0])
  {
  }

  lemma FiresTwo(rule: Rule, text: string)
    requires |rule.keywords| == 2
    ensures Fires(rule, text) <==> Contains(text, rule.keywords[0]) && Contains(text, rule.keywords[1])
  {
  }

  /** `ParseErrors` is exactly the first-match table. */
  lemma ParseErrorsFollowsTable(e: GoError)
    ensures ParseErrors(e) == Classify(e)
  {
    var text := ErrorText(e);
    var m := FirstMatch(Rules, text);
    FiresOne(Rules[0], text);
    FiresOne(Rules[1], text);
    FiresOne(Rules[2], text);
    FiresTwo(Rules[3], text);
    FiresOne(Rules[4], text);
    FiresOne(Rules[5], text);
    if Contains(text, JsonKeyword) {
      assert m == Some(0);
    } else if Contains(text, NotFoundKeyword) {
      assert m == Some(1);
    } else if Contains(text, RequiredKeyword) {
      assert m == Some(2);
    } else if Contains(text, SqlKeyword) && Contains(text, UniqueViolationKeyword) {
      assert m == Some(3);
    } else if Contains(text, SqlKeyword) {
      assert m == Some(4);
    } else if Contains(text, UnmarshalKeyword) {
      assert m == Some(5);
    } else {
      assert m == None;
    }
  }
}
