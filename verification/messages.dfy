/**
 Server response bodies and the JavaScript `a || b || fallback` chains the
 board uses to pick the text it shows for a failed request.
 */
module Messages {
  import opened Wrappers

  /** A write request to the API; the activity name and email travel percent-encoded in the URL. */
  datatype Request =
    | SignupRequest(activity: string, email: string)        // POST /activities/{activity}/signup?email={email}
    | UnregisterRequest(activity: string, email: string)    // DELETE /activities/{activity}/unregister?email={email}

  /** The two fields of a JSON response body that the board reads; `None` when absent or null. */
  datatype ResponseBody = ResponseBody(detail: Option<string>, message: Option<string>)

  /** JavaScript truthiness of an optional string: present and non-empty. */
  predicate Truthy(a: Option<string>) {
    a.Some? && a.value != ""
  }

  /** `cs[0] || cs[1] || ... || fallback`: the first truthy candidate's value, else `fallback`. */
  function FirstTruthy(cs: seq<Option<string>>, fallback: string): (r: string)
    ensures (forall i :: 0 <= i < |cs| ==> !Truthy(cs[i])) ==> r == fallback
    ensures forall i :: 0 <= i < |cs| && Truthy(cs[i]) && (forall j :: 0 <= j < i ==> !Truthy(cs[j]))
              ==> r == cs[i].value
    ensures fallback != "" ==> r != ""
  {
    if |cs| == 0 then fallback
    else if Truthy(cs[0]) then cs[0].value
    else FirstTruthy(cs[1..], fallback)
  }

  const UnregisterFallback := "Failed to unregister participant"
  const UnregisterNetworkFailure := "Failed to unregister participant. See console for details."
  const SignupFallback := "An error occurred"
  const SignupNetworkFailure := "Failed to sign up. Please try again."

  /** The alert text for a refused unregister: `detail`, else `message`, else a fixed string. */
  function UnregisterAlertText(body: ResponseBody): (r: string)
    ensures Truthy(body.detail) ==> r == body.detail.value
    ensures !Truthy(body.detail) && Truthy(body.message) ==> r == body.message.value
    ensures !Truthy(body.detail) && !Truthy(body.message) ==> r == UnregisterFallback
  {
    var cs := [body.detail, body.message];
    assert cs[0] == body.detail && cs[1] == body.message;
    assert !Truthy(body.detail) ==> forall j :: 0 <= j < 1 ==> !Truthy(cs[j]);
    FirstTruthy(cs, UnregisterFallback)
  }

  /** The status text for a refused signup: `detail`, else a fixed string; `message` is never consulted. */
  function SignupErrorText(body: ResponseBody): (r: string)
    ensures Truthy(body.detail) ==> r == body.detail.value
    ensures !Truthy(body.detail) ==> r == SignupFallback
  {
    FirstTruthy([body.detail], SignupFallback)
  }
}
