/** The decision part of `rotate_grafana_session`: whether Grafana's answer to
    a token rotation yields a new session cookie. Any failure stops the scan. */
module SessionRotation {
  import opened Wrappers

  /** What the rotation request came back with: a status, the new
      `grafana_session` cookie when the answer sets one, and the answer's text;
      or the exception sending it raised. */
  datatype RotateReply =
    | Replied(status: int, cookie: Option<string>, text: string)
    | RotateError(message: string)

  /** The new cookie, or the message the script stops with. A missing cookie
      and an empty one are both refused. */
  function RotateSession(reply: RotateReply): (r: Result<string>)
    ensures r.Ok? <==> reply.Replied? && reply.status == 200 && reply.cookie.Some? && |reply.cookie.value| > 0
    ensures r.Ok? ==> r.value == reply.cookie.value
  {
    match reply
    case Replied(status, cookie, text) =>
      if status != 200 then Err("Error rotating session: Session rotation failed: " + text)
      else if cookie.None? || |cookie.value| == 0 then
        Err("Error rotating session: Failed to extract new grafana_session from response.")
      else Ok(cookie.value)
    case RotateError(message) => Err("Error rotating session: " + message)
  }
}
