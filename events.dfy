/** The event wait of `wifi_wait_on_socket` and `wifi_ctrl_recv`: poll the monitor
    connection's descriptor together with the exit socket, and turn every way the
    wait can end into an event string. Failures never surface as errors: they
    become synthetic `CTRL-EVENT-TERMINATING` events. */
module EventWait {
  import opened CStrings
  import opened EventNormalizer

  /** What one `poll(rfds, 2, 30000)` reports (an EINTR is retried and not seen). */
  datatype Poll =
    | PollError                               // poll returned -1
    | Quiet(status: string)                   // returned 0 after 30 s; `status` is what the
                                              // supervisor reported then ("" when unset)
    | Ready(monitorIn: bool, exitIn: bool)    // returned > 0; POLLIN on the monitor fd and
                                              // on the exit socket (neither: only a hangup
                                              // or error flag was raised)

  /** What `wpa_ctrl_recv` returns and the characters it stores (`*reply_len`). */
  datatype Recv = Recv(code: int, data: seq<char>)

  const WPA_EVENT_TERMINATING := "CTRL-EVENT-TERMINATING "
  const CONNECTION_CLOSED := "connection closed"
  const RECV_ERROR := "recv error"
  const SIGNAL_0 := "signal 0 received"

  /** `wifi_supplicant_connection_active`: -1 exactly when the supervisor reports
      the daemon stopped; an unset or any other status counts as active. */
  function ConnectionActive(status: string): (r: int)
    ensures r == -1 <==> status == "stopped"
    ensures r == 0 || r == -1
  {
    if status == "stopped" then -1 else 0
  }

  /** A poll that ends the `do ... while (res == 0)` loop of `wifi_ctrl_recv`. */
  predicate Wakes(p: Poll)
  {
    !p.Quiet? || ConnectionActive(p.status) < 0
  }

  /** Some poll at or after `i` ends the loop (a run of the wait that returns). */
  predicate WakesFrom(polls: seq<Poll>, i: nat)
  {
    exists k :: i <= k < |polls| && Wakes(polls[k])
  }

  /** The poll that ends the loop when polling starts at `i`. */
  function FirstWake(polls: seq<Poll>, i: nat): (k: nat)
    requires WakesFrom(polls, i)
    decreases |polls| - i
    ensures i <= k < |polls| && Wakes(polls[k])
    ensures forall j :: i <= j < k ==> !Wakes(polls[j])
  {
    if Wakes(polls[i]) then i else FirstWake(polls, i + 1)
  }

  /** The poll that ends the loop is the first that wakes. */
  lemma FirstWakeAt(polls: seq<Poll>, i: nat, k: nat)
    requires i <= k < |polls| && Wakes(polls[k])
    requires forall j :: i <= j < k ==> !Wakes(polls[j])
    ensures FirstWake(polls, i) == k
  {
    var f := FirstWake(polls, i);
    assert !(f < k) && !(k < f);
  }

  /** Whether `wifi_ctrl_recv` reaches `wpa_ctrl_recv`: the waking poll had data
      on the monitor descriptor. */
  predicate ReadsMonitor(polls: seq<Poll>)
    requires WakesFrom(polls, 0)
  {
    var p := polls[FirstWake(polls, 0)];
    p.Ready? && p.monitorIn
  }

  /** What `wifi_ctrl_recv` returns, `code` being what `wpa_ctrl_recv` would
      return: -1 for a poll error, -2 for a stopped daemon, the exit socket or a
      hangup, and `code` when the monitor descriptor has data. */
  function RecvResult(polls: seq<Poll>, code: int): (r: int)
    requires WakesFrom(polls, 0)
    ensures ReadsMonitor(polls) ==> r == code
    ensures !ReadsMonitor(polls) ==> r == -1 || r == -2
  {
    match polls[FirstWake(polls, 0)]
    case PollError => -1
    case Quiet(_) => -2
    case Ready(monitorIn, _) => if monitorIn then code else -2
  }

  /** Quiet timeouts while the daemon is alive change nothing: polling goes on. */
  lemma {:induction false} QuietTimeoutsPollAgain(quiet: seq<Poll>, rest: seq<Poll>)
    requires forall j :: 0 <= j < |quiet| ==> quiet[j].Quiet? && quiet[j].status != "stopped"
    requires WakesFrom(rest, 0)
    ensures WakesFrom(quiet + rest, 0)
    ensures FirstWake(quiet + rest, 0) == |quiet| + FirstWake(rest, 0)
    ensures forall code :: RecvResult(quiet + rest, code) == RecvResult(rest, code)
  {
    var polls := quiet + rest;
    var f := FirstWake(rest, 0);
    assert polls[|quiet| + f] == rest[f];
    forall j | 0 <= j < |quiet| + f ensures !Wakes(polls[j]) {
      if j < |quiet| { assert polls[j] == quiet[j]; } else { assert polls[j] == rest[j - |quiet|]; }
    }
    FirstWakeAt(polls, 0, |quiet| + f);
  }

  /** `IFNAME=<iface> CTRL-EVENT-TERMINATING  - <reason>`, the shape of every
      synthetic event (the marker's own trailing space makes two before `-`). */
  function TerminatingEvent(iface: string, reason: string): string
  {
    IFNAME + iface + " " + WPA_EVENT_TERMINATING + " - " + reason
  }

  lemma TerminatingEventText(iface: string, reason: string)
    ensures TerminatingEvent(iface, reason) == "IFNAME=" + iface + " CTRL-EVENT-TERMINATING  - " + reason
  {
  }

  /** A synthetic event is already in the normalised form: read back through the
      normaliser it is unchanged, so callers see one uniform event stream. */
  lemma SyntheticEventsAreNormal(iface: string, reason: string)
    requires ' ' !in iface && NUL !in iface
    ensures Normalize(TerminatingEvent(iface, reason)) == TerminatingEvent(iface, reason)
  {
    var rest := WPA_EVENT_TERMINATING + " - " + reason;
    assert TerminatingEvent(iface, reason) == IFNAME + iface + " " + rest;
    assert rest[0] == 'C';
    UntaggedIfnameEvent(iface, rest);
  }

  /** The event `wifi_wait_on_socket` delivers (lines 402-419) once
      `wifi_ctrl_recv` returned `res` with `data` received: `connection closed`
      for -2, `recv error` for any other failure, `signal 0 received` for an empty
      read, and otherwise the normalised data. */
  function ResultEvent(iface: string, res: int, data: seq<char>): seq<char>
  {
    if res == -2 then TerminatingEvent(iface, CONNECTION_CLOSED)
    else if res < 0 then TerminatingEvent(iface, RECV_ERROR)
    else if res == 0 && |data| == 0 then TerminatingEvent(iface, SIGNAL_0)
    else Normalize(data)
  }

  /** The event `wifi_wait_on_socket` delivers, before truncation to the buffer:
      `monitorOpen` says whether `monitor_conn` is set, `iface` is `primary_iface`. */
  function WaitEvent(monitorOpen: bool, iface: string, polls: seq<Poll>, recv: Recv): seq<char>
    requires monitorOpen ==> WakesFrom(polls, 0)
  {
    if !monitorOpen then TerminatingEvent(iface, CONNECTION_CLOSED)
    else ResultEvent(iface, RecvResult(polls, recv.code), recv.data)
  }

  /** How each way of ending the wait turns into an event. */
  lemma WaitEventCases(iface: string, polls: seq<Poll>, recv: Recv)
    requires WakesFrom(polls, 0)
    ensures var p := polls[FirstWake(polls, 0)];
            var e := WaitEvent(true, iface, polls, recv);
            (p.PollError? ==> e == TerminatingEvent(iface, RECV_ERROR)) &&
            (p.Quiet? ==> p.status == "stopped" && e == TerminatingEvent(iface, CONNECTION_CLOSED)) &&
            (p.Ready? && !p.monitorIn ==> e == TerminatingEvent(iface, CONNECTION_CLOSED)) &&
            (p.Ready? && p.monitorIn ==> e == ResultEvent(iface, recv.code, recv.data))
  {
  }

  /** Data on the monitor descriptor takes priority over a cancel byte waiting
      on the exit socket in the same poll. */
  lemma DataBeforeCancel(iface: string, rest: seq<Poll>, recv: Recv)
    ensures WakesFrom([Ready(true, true)] + rest, 0)
    ensures WaitEvent(true, iface, [Ready(true, true)] + rest, recv) == ResultEvent(iface, recv.code, recv.data)
  {
    var polls := [Ready(true, true)] + rest;
    assert Wakes(polls[0]);
    FirstWakeAt(polls, 0, 0);
  }

  /** However many quiet timeouts come first, a cancel byte on the exit socket
      ends the wait with `connection closed`. */
  lemma CancelEndsWait(iface: string, quiet: seq<Poll>, rest: seq<Poll>, recv: Recv)
    requires forall j :: 0 <= j < |quiet| ==> quiet[j].Quiet? && quiet[j].status != "stopped"
    ensures WakesFrom(quiet + [Ready(false, true)] + rest, 0)
    ensures WaitEvent(true, iface, quiet + [Ready(false, true)] + rest, recv)
            == TerminatingEvent(iface, CONNECTION_CLOSED)
  {
    var tail := [Ready(false, true)] + rest;
    assert Wakes(tail[0]);
    FirstWakeAt(tail, 0, 0);
    QuietTimeoutsPollAgain(quiet, tail);
    assert quiet + [Ready(false, true)] + rest == quiet + tail;
  }

  /** With no monitor connection (after `wifi_close_sockets`) the wait does not
      poll and reports the connection closed for the last known interface. */
  lemma ClosedExample(polls: seq<Poll>, recv: Recv)
    ensures WaitEvent(false, "wlan0", polls, recv)
            == "IFNAME=wlan0" + " CTRL-EVENT-TERMINATING  - " + "connection closed"
  {
    TerminatingEventText("wlan0", CONNECTION_CLOSED);
    assert "IFNAME=" + "wlan0" == "IFNAME=wlan0";
  }

  /** `wifi_ctrl_recv`: poll until something wakes the loop, then read from the
      monitor connection if it has data. The read stores `recv.data` at the
      start of `buf`. */
  method CtrlRecv(buf: array<char>, polls: seq<Poll>, recv: Recv) returns (res: int, polled: nat)
    requires WakesFrom(polls, 0)
    requires |recv.data| < buf.Length
    modifies buf
    ensures res == RecvResult(polls, recv.code)
    ensures polled == FirstWake(polls, 0) + 1
    ensures ReadsMonitor(polls) ==> buf[..|recv.data|] == recv.data &&
                                    buf[|recv.data|..] == old(buf[|recv.data|..])
    ensures !ReadsMonitor(polls) ==> buf[..] == old(buf[..])
  {
    var i := 0;
    while true
      invariant 0 <= i < |polls| && WakesFrom(polls, i)
      invariant forall j :: 0 <= j < i ==> !Wakes(polls[j])
      invariant buf[..] == old(buf[..])
      decreases |polls| - i
    {
      match polls[i]
      case PollError =>
        FirstWakeAt(polls, 0, i);
        return -1, i + 1;
      case Quiet(status) =>
        if ConnectionActive(status) < 0 {
          FirstWakeAt(polls, 0, i);
          return -2, i + 1;
        }
        i := i + 1;
      case Ready(_, _) =>
        break;
    }
    FirstWakeAt(polls, 0, i);
    if polls[i].monitorIn {
      var n := 0;
      while n < |recv.data|
        invariant 0 <= n <= |recv.data|
        invariant buf[..n] == recv.data[..n]
        invariant buf[n..] == old(buf[n..])
      {
        buf[n] := recv.data[n];
        n := n + 1;
      }
      res := recv.code;
    } else {
      res := -2;
    }
    polled := i + 1;
  }
}
