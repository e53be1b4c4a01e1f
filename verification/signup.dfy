/**
 The signup form's submit handler: the request it always issues and the status
 message, form reset and refresh that follow from the response.
 */
module Signup {
  import opened Wrappers
  import opened Messages

  /** What the POST request came back with. */
  datatype Response =
    | Accepted(body: ResponseBody)  // a 2xx status with a JSON body
    | Refused(body: ResponseBody)   // any other status with a JSON body
    | Failed                        // the request threw, or its body was not JSON or was JSON null
                                    // (reading `message`/`detail` of null throws into the catch)

  /** The class the status message takes. */
  datatype Kind = Success | Error {
    function ClassName(): string {
      match this
      case Success => "success"
      case Error => "error"
    }
  }

  datatype Status = Status(text: string, kind: Kind)

  /**
   What one submit does: the request, the status message shown, whether the
   form is reset, whether the activities are fetched again, and whether a timer
   to hide the message is started.
   */
  datatype Effect = Effect(request: Request, status: Status, resetForm: bool, refresh: bool, hideLater: bool)

  /** Submitting `email` for `activity`, as read from the form, with the given outcome. */
  function OnSubmit(email: string, activity: string, response: Response): (e: Effect)
    ensures e.request == SignupRequest(activity, email)
    ensures e.status.kind == Success <==> response.Accepted?
    ensures e.status.kind.ClassName() == (if response.Accepted? then "success" else "error")
    ensures e.resetForm <==> response.Accepted?
    ensures e.refresh <==> response.Accepted?
    ensures e.hideLater <==> !response.Failed?
    ensures response.Accepted? ==> e.status.text == response.body.message.GetOr("")
    ensures response.Refused? ==> e.status.text != ""
    ensures response.Refused? && Truthy(response.body.detail) ==> e.status.text == response.body.detail.value
    ensures response.Refused? && !Truthy(response.body.detail) ==> e.status.text == SignupFallback
    ensures response.Failed? ==> e.status == Status(SignupNetworkFailure, Error)
  {
    var request := SignupRequest(activity, email);
    match response
    case Accepted(body) => Effect(request, Status(body.message.GetOr(""), Success), true, true, true)
    case Refused(body) => Effect(request, Status(SignupErrorText(body), Error), false, false, true)
    case Failed => Effect(request, Status(SignupNetworkFailure, Error), false, false, false)
  }
}
