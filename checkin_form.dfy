/** The check-in screen: two form fields and the submission state around one
    call of the data-access client. The submit handler is asynchronous; its
    part before the `await` is `Submit`, its continuation is `Resolve`, and
    `HandleSubmit` runs the two around `saveStudent` for a given response. */
module CheckInScreen {
  import opened Types
  import opened DataService

  const InProgressStatus: string := "正在與伺服器連線並生成專屬信件..."
  const DoneStatus: string := "完成！"
  const BusyStatus: string := "伺服器忙碌中，請稍後再試。"

  class CheckInForm {
    var name: string
    var email: string
    var isSubmitting: bool
    var status: string

    constructor()
      ensures name == "" && email == "" && !isSubmitting && status == ""
    {
      name, email := "", "";
      isSubmitting := false;
      status := "";
    }

    /** The name field's change handler. */
    method SetName(value: string)
      modifies this
      ensures name == value && email == old(email)
      ensures isSubmitting == old(isSubmitting) && status == old(status)
    {
      name := value;
    }

    /** The email field's change handler. */
    method SetEmail(value: string)
      modifies this
      ensures email == value && name == old(name)
      ensures isSubmitting == old(isSubmitting) && status == old(status)
    {
      email := value;
    }

    /** The handler up to the `await`: with an empty field it returns without
        touching anything; otherwise it marks the form as submitting, shows
        the progress message and yields the arguments of the service call. */
    method Submit() returns (call: Option<(string, string)>)
      modifies this
      ensures name == old(name) && email == old(email)
      ensures old(name) == "" || old(email) == "" ==>
        call == None && isSubmitting == old(isSubmitting) && status == old(status)
      ensures old(name) != "" && old(email) != "" ==>
        call == Some((name, email)) && isSubmitting && status == InProgressStatus
    {
      if name == "" || email == "" {
        return None;
      }
      isSubmitting := true;
      status := InProgressStatus;
      call := Some((name, email));
    }

    /** The continuation: on success the completion callback receives the
        record, on any failure the fixed busy message is shown whatever the
        error said; either way the form is enabled again. */
    method Resolve(outcome: Result<StudentRecord, Failure>) returns (completed: Option<StudentRecord>)
      modifies this
      ensures name == old(name) && email == old(email) && !isSubmitting
      ensures outcome.Success? ==> status == DoneStatus && completed == Some(outcome.value)
      ensures outcome.Failure? ==> status == BusyStatus && completed == None
    {
      match outcome {
        case Success(record) =>
          status := DoneStatus;
          completed := Some(record);
        case Failure(_) =>
          status := BusyStatus;
          completed := None;
      }
      isSubmitting := false;
    }

    /** One press of the submit button. The service is called with the two
        field values only, so the posted body has no nationality. */
    method HandleSubmit(resp: Response<ServerStudent>)
      returns (posted: Option<CheckInRequest>, completed: Option<StudentRecord>)
      modifies this
      ensures name == old(name) && email == old(email)
      ensures old(name) == "" || old(email) == "" ==>
        posted == None && completed == None
        && isSubmitting == old(isSubmitting) && status == old(status)
      ensures old(name) != "" && old(email) != "" ==>
        && posted == Some(CheckInRequest(name, email, None))
        && !isSubmitting
        && (resp.OkResponse? && resp.body.Json? ==>
              completed == Some(MapRecord(resp.body.value)) && status == DoneStatus)
        && (!(resp.OkResponse? && resp.body.Json?) ==> completed == None && status == BusyStatus)
    {
      posted, completed := None, None;
      var call := Submit();
      if call.Some? {
        var request, outcome := SaveStudent(call.value.0, call.value.1, None, resp);
        posted := Some(request);
        completed := Resolve(outcome);
      }
    }
  }
}
