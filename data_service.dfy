/** The front end's data-access client. Each remote call is modelled by the
    response it receives, given as a parameter: an ok response whose body
    does or does not parse as JSON, a non-ok response with its status text
    and error body, or no response at all. A rejected promise is a
    `Failure`. */
module DataService {
  import opened Types
  import opened Text

  /** A student as the backend's JSON has it (snake-case field names). */
  datatype ServerStudent = ServerStudent(
    id: int,
    name: string,
    email: string,
    check_in_time: string,
    letter: Option<string>)

  /** What `response.json()` yields: a value of the expected shape, or a
      body that does not parse. */
  datatype Body<T> = Json(value: T) | NotJson

  /** A parsed error body: JSON `null`, or an object whose `detail`
      property may be missing. Any other JSON value behaves like an object
      without `detail`. */
  datatype ErrorJson = JsonNull | JsonObject(detail: Option<string>)

  /** What a `fetch` gives: a response, ok or not, or a rejected promise when
      no response arrives at all (the network failed). */
  datatype Response<T> =
    | OkResponse(body: Body<T>)
    | ErrorResponse(statusText: string, errorBody: Body<ErrorJson>)
    | NoResponse

  /** Why a call's promise rejects: an `Error` the client throws, the
      `SyntaxError` of a body that does not parse, or the `TypeError` of a
      `fetch` that got no response. */
  datatype Failure = Error(message: string) | SyntaxError | NetworkError

  /** The JSON body posted to the check-in endpoint; `nationality` is
      omitted from the JSON when it is undefined. */
  datatype CheckInRequest = CheckInRequest(name: string, email: string, nationality: Option<string>)

  const StudentsFetchError: string := "無法獲取學生名單"
  const AnalyticsFetchError: string := "無法獲取分析數據"
  const CheckInFailed: string := "打卡失敗"

  /** The translation from the server's record shape to the client's: the
      identifier becomes its decimal string, the timestamp and letter fields
      are renamed, name and email pass through. */
  function MapRecord(s: ServerStudent): (r: StudentRecord)
    ensures ParseInt(r.id) == Some(s.id) && CanonicalInt(r.id)
    ensures r.id == IntToString(s.id)
    ensures r.name == s.name && r.email == s.email
    ensures r.checkInTime == s.check_in_time && r.personalizedLetter == s.letter
  {
    IntToStringRoundTrip(s.id);
    StudentRecord(IntToString(s.id), s.name, s.email, s.check_in_time, s.letter)
  }

  /** The inverse translation, reading the identifier back. */
  function UnmapRecord(r: StudentRecord): Option<ServerStudent> {
    match ParseInt(r.id)
    case None => None
    case Some(id) => Some(ServerStudent(id, r.name, r.email, r.checkInTime, r.personalizedLetter))
  }

  /** The mapping loses nothing: every server record is recovered from its
      client form. */
  lemma MapRecordRoundTrip(s: ServerStudent)
    ensures UnmapRecord(MapRecord(s)) == Some(s)
  {
    IntToStringRoundTrip(s.id);
  }

  lemma MapRecordInjective(a: ServerStudent, b: ServerStudent)
    ensures MapRecord(a) == MapRecord(b) <==> a == b
  {
    MapRecordRoundTrip(a);
    MapRecordRoundTrip(b);
  }

  /** `getStudents`: a non-ok response fails with the fixed message without
      reading the body; otherwise every element is mapped, in order. */
  function GetStudents(resp: Response<seq<ServerStudent>>): (r: Result<seq<StudentRecord>, Failure>)
    ensures resp.NoResponse? ==> r == Failure(NetworkError)
    ensures resp.ErrorResponse? ==> r == Failure(Error(StudentsFetchError))
    ensures resp.OkResponse? && resp.body.NotJson? ==> r == Failure(SyntaxError)
    ensures resp.OkResponse? && resp.body.Json? ==>
      && r.Success?
      && |r.value| == |resp.body.value|
      && forall i :: 0 <= i < |r.value| ==> r.value[i] == MapRecord(resp.body.value[i])
  {
    match resp
    case NoResponse => Failure(NetworkError)
    case ErrorResponse(_, _) => Failure(Error(StudentsFetchError))
    case OkResponse(NotJson) => Failure(SyntaxError)
    case OkResponse(Json(xs)) => Success(seq(|xs|, i requires 0 <= i < |xs| => MapRecord(xs[i])))
  }

  /** Distinct server identifiers stay distinct once they are strings. */
  lemma GetStudentsKeepsIdsDistinct(xs: seq<ServerStudent>)
    requires forall i, j :: 0 <= i < j < |xs| ==> xs[i].id != xs[j].id
    ensures var ys := GetStudents(OkResponse(Json(xs))).value;
      forall i, j :: 0 <= i < j < |ys| ==> ys[i].id != ys[j].id
  {
    var ys := GetStudents(OkResponse(Json(xs))).value;
    forall i, j | 0 <= i < j < |ys| ensures ys[i].id != ys[j].id {
      IntToStringInjective(xs[i].id, xs[j].id);
    }
  }

  /** `getAnalytics`: the parsed body is returned as it is. */
  function GetAnalytics(resp: Response<seq<AnalyticsData>>): (r: Result<seq<AnalyticsData>, Failure>)
    ensures resp.NoResponse? ==> r == Failure(NetworkError)
    ensures resp.ErrorResponse? ==> r == Failure(Error(AnalyticsFetchError))
    ensures resp.OkResponse? && resp.body.NotJson? ==> r == Failure(SyntaxError)
    ensures resp.OkResponse? && resp.body.Json? ==> r == Success(resp.body.value)
  {
    match resp
    case NoResponse => Failure(NetworkError)
    case ErrorResponse(_, _) => Failure(Error(AnalyticsFetchError))
    case OkResponse(NotJson) => Failure(SyntaxError)
    case OkResponse(Json(xs)) => Success(xs)
  }

  /** JavaScript truthiness of a `detail` property that is a string. */
  predicate Truthy(detail: Option<string>) {
    detail.Some? && detail.value != ""
  }

  /** `saveStudent`: posts `{name, email, nationality}`; on a non-ok response
      builds the error message in a local variable across the body parse and
      its `catch`; on an ok response maps the returned record. */
  method SaveStudent(name: string, email: string, nationality: Option<string>, resp: Response<ServerStudent>)
    returns (request: CheckInRequest, r: Result<StudentRecord, Failure>)
    ensures request == CheckInRequest(name, email, nationality)
    ensures resp.OkResponse? && resp.body.Json? ==> r == Success(MapRecord(resp.body.value))
    ensures resp.OkResponse? && resp.body.NotJson? ==> r == Failure(SyntaxError)
    ensures resp.NoResponse? ==> r == Failure(NetworkError)
    ensures resp.ErrorResponse? ==> r.Failure? && r.error.Error? && r.error.message != ""
    ensures resp.ErrorResponse? && resp.errorBody.Json? && resp.errorBody.value.JsonObject? ==>
      r.error.message == (if Truthy(resp.errorBody.value.detail) then resp.errorBody.value.detail.value
                          else CheckInFailed)
    ensures resp.ErrorResponse? && (resp.errorBody.NotJson? || resp.errorBody.value.JsonNull?) ==>
      r.error.message == (if resp.statusText != "" then resp.statusText else CheckInFailed)
  {
    request := CheckInRequest(name, email, nationality);
    match resp {
      case ErrorResponse(statusText, errorBody) =>
        var errorMessage := CheckInFailed;
        match errorBody {
          case Json(JsonObject(detail)) =>
            if Truthy(detail) {
              errorMessage := detail.value;
            }
          case _ =>
            // the parse failed, or reading `detail` of null threw
            errorMessage := if statusText != "" then statusText else CheckInFailed;
        }
        r := Failure(Error(errorMessage));
      case NoResponse =>
        r := Failure(NetworkError);
      case OkResponse(NotJson) =>
        r := Failure(SyntaxError);
      case OkResponse(Json(s)) =>
        r := Success(MapRecord(s));
    }
  }
}
