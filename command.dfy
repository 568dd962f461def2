/** The reply classification of `wifi_send_command`: what a request over the
    command connection reports to its caller. */
module Command {
  import opened CStrings

  /** What `wpa_ctrl_request` returns and the characters it stores in the reply
      buffer (what it reports in `*reply_len`). It returns -2 when the daemon did
      not answer in time. */
  datatype Request = Request(code: int, reply: seq<char>)

  /** `strncmp(reply, "FAIL", 4) == 0`, read from the reply buffer itself (the
      transport does not terminate what it stores). */
  predicate FailReply(replyBuf: seq<char>)
  {
    HasPrefix(replyBuf, "FAIL")
  }

  /** `strncmp(cmd, "PING", 4) == 0` for a command string. */
  predicate IsPing(cmd: string)
  {
    HasPrefix(cmd, "PING")
  }

  /** What `wifi_send_command` returns once the request was made: -2 on a
      transport timeout, -1 on any other transport error or a `FAIL` reply, and
      0 otherwise. */
  function CommandStatus(code: int, failReply: bool): (r: int)
    ensures r == -2 <==> code == -2
    ensures r == -1 <==> code != -2 && (code < 0 || failReply)
    ensures r == 0 <==> 0 <= code && !failReply
  {
    if code == -2 then -2
    else if code < 0 || failReply then -1
    else 0
  }

  /** A `FAIL` reply is only looked at when the transport succeeded: a timeout
      stays a timeout whatever the buffer holds. */
  lemma TimeoutWins(replyBuf: seq<char>)
    ensures CommandStatus(-2, FailReply(replyBuf)) == -2
  {
  }

  /** The reply buffer after a request stored `stored` at its front. */
  function AfterRequest(old_buf: seq<char>, stored: seq<char>): (b: seq<char>)
    requires |stored| <= |old_buf|
    ensures |b| == |old_buf|
    ensures b[..|stored|] == stored && b[|stored|..] == old_buf[|stored|..]
  {
    stored + old_buf[|stored|..]
  }

  /** A reply shorter than four characters is read together with what the buffer
      held before: a stale `FAIL` completes a reply of `FA`. */
  lemma StaleFailMarker()
    ensures FailReply(AfterRequest("FAIL", "FA"))
    ensures !FailReply(AfterRequest("OKAY", "FA"))
  {
    assert AfterRequest("FAIL", "FA") == "FAIL";
    assert AfterRequest("OKAY", "FA") == "FAAY";
    assert "FAAY"[2] != "FAIL"[2];
  }
}
