/** The process-wide state of the control-channel client (`ctrl_conn`,
    `monitor_conn`, `exit_sockets`, `primary_iface`) and the operations that
    change it or read it. Calls into the transport, the supervisor and the kernel
    are parameters (their outcomes) and logs (what was asked of them). */
module WifiClient {
  import opened CStrings
  import opened EventNormalizer
  import opened EventWait
  import opened Command
  import opened Lifecycle

  /** A `struct wpa_ctrl *` returned by `wpa_ctrl_open`; NULL is `None`. */
  datatype Handle = Handle(id: nat)

  const IFACE_DIR := "/data/system/wpa_supplicant"
  const ABSTRACT_PREFIX := "@android:wpa_"
  const WIFI_TEST_INTERFACE := "sta"

  /** The control-socket path of `wifi_connect_to_supplicant`: a file under
      IFACE_DIR when that directory exists, an abstract-namespace name otherwise. */
  function ControlPath(dirExists: bool, iface: string): string
  {
    if dirExists then IFACE_DIR + "/" + iface else ABSTRACT_PREFIX + iface
  }

  /** Different interfaces, or the two namespaces, never share a control path. */
  lemma ControlPathInjective(d1: bool, i1: string, d2: bool, i2: string)
    requires ControlPath(d1, i1) == ControlPath(d2, i2)
    ensures d1 == d2 && i1 == i2
  {
    var p := ControlPath(d1, i1);
    assert p[0] == (if d1 then '/' else '@');
    assert p[0] == (if d2 then '/' else '@');
    var n := if d1 then |IFACE_DIR| + 1 else |ABSTRACT_PREFIX|;
    assert p[n..] == i1;
    assert p[n..] == i2;
  }

  /** `property_get("wifi.interface", primary_iface, "sta")`: the property, or
      the test interface when it is unset. */
  function InterfaceName(prop: string): (iface: string)
    ensures iface != ""
    ensures prop != "" ==> iface == prop
    ensures prop == "" ==> iface == WIFI_TEST_INTERFACE
  {
    if prop == "" then WIFI_TEST_INTERFACE else prop
  }

  class Supplicant {
    var ctrl: Option<Handle>
    var monitor: Option<Handle>
    var exit0: int
    var exit1: int
    var primaryIface: string

    /** Paths given to `wpa_ctrl_open`, handles given to `wpa_ctrl_close`,
        descriptors given to `close`, commands given to `wpa_ctrl_request`, and
        descriptors the cancel byte `T` was written to, each in call order. */
    var openedPaths: seq<string>
    var closedHandles: seq<Handle>
    var closedFds: seq<int>
    var requests: seq<string>
    var cancelWrites: seq<int>

    /** No command or monitor connection and no exit socket pair. */
    predicate Disconnected()
      reads this
    {
      ctrl.None? && monitor.None? && exit0 < 0 && exit1 < 0
    }

    /** Both connections and both ends of the exit socket pair are held. */
    predicate Connected()
      reads this
    {
      ctrl.Some? && monitor.Some? && 0 <= exit0 && 0 <= exit1
    }

    /** The globals as the process starts: NULL handles, and `exit_sockets`
        zero-initialised like every static array (descriptor 0). */
    constructor ()
      ensures ctrl.None? && monitor.None? && exit0 == 0 && exit1 == 0 && primaryIface == ""
      ensures openedPaths == [] && closedHandles == [] && closedFds == [] && requests == [] && cancelWrites == []
    {
      ctrl, monitor := None, None;
      exit0, exit1 := 0, 0;
      primaryIface := "";
      openedPaths, closedHandles, closedFds, requests, cancelWrites := [], [], [], [], [];
    }

    /** `wifi_close_sockets`: release whatever is held, command connection first,
        and leave everything absent; on a disconnected client it changes nothing. */
    method CloseSockets()
      modifies this
      ensures Disconnected()
      ensures closedHandles == old(closedHandles) +
                (if old(ctrl).Some? then [old(ctrl).value] else []) +
                (if old(monitor).Some? then [old(monitor).value] else [])
      ensures closedFds == old(closedFds) +
                (if old(exit0) >= 0 then [old(exit0)] else []) +
                (if old(exit1) >= 0 then [old(exit1)] else [])
      ensures exit0 == (if old(exit0) >= 0 then -1 else old(exit0))
      ensures exit1 == (if old(exit1) >= 0 then -1 else old(exit1))
      ensures primaryIface == old(primaryIface) && openedPaths == old(openedPaths)
      ensures requests == old(requests) && cancelWrites == old(cancelWrites)
      ensures old(Disconnected()) ==> unchanged(this)
    {
      if ctrl.Some? {
        closedHandles := closedHandles + [ctrl.value];
        ctrl := None;
      }
      if monitor.Some? {
        closedHandles := closedHandles + [monitor.value];
        monitor := None;
      }
      if exit0 >= 0 {
        closedFds := closedFds + [exit0];
        exit0 := -1;
      }
      if exit1 >= 0 {
        closedFds := closedFds + [exit1];
        exit1 := -1;
      }
    }

    /** `wifi_connect_on_socket_path`. `status` is the supervisor's status of the
        daemon; `first` and `second` are what the two `wpa_ctrl_open` calls return,
        `attached` whether `wpa_ctrl_attach` succeeds, `pair` what `socketpair`
        creates. Each failure closes what this call opened, newest first, and
        leaves both connections NULL; a socketpair failure leaves the old exit
        descriptors as they were. */
    method ConnectOnSocketPath(path: string, status: string, first: Option<Handle>, second: Option<Handle>,
                               attached: bool, pair: Option<(nat, nat)>) returns (ret: int)
      modifies this
      ensures ret == 0 || ret == -1
      ensures primaryIface == old(primaryIface) && requests == old(requests) && cancelWrites == old(cancelWrites)
      ensures closedFds == old(closedFds)
      ensures status != "running" ==> ret == -1 && unchanged(this)
      ensures status == "running" ==> |old(openedPaths)| < |openedPaths| && openedPaths[|old(openedPaths)|] == path
      ensures status == "running" && first.None? ==>
                ret == -1 && ctrl.None? && monitor == old(monitor) && openedPaths == old(openedPaths) + [path] &&
                closedHandles == old(closedHandles) && exit0 == old(exit0) && exit1 == old(exit1)
      ensures status == "running" && first.Some? && second.None? ==>
                ret == -1 && ctrl.None? && monitor.None? && openedPaths == old(openedPaths) + [path, path] &&
                closedHandles == old(closedHandles) + [first.value] && exit0 == old(exit0) && exit1 == old(exit1)
      ensures status == "running" && first.Some? && second.Some? && (!attached || pair.None?) ==>
                ret == -1 && ctrl.None? && monitor.None? && openedPaths == old(openedPaths) + [path, path] &&
                closedHandles == old(closedHandles) + [second.value, first.value] &&
                exit0 == old(exit0) && exit1 == old(exit1)
      ensures status == "running" && first.Some? && second.Some? && attached && pair.Some? ==>
                ret == 0 && ctrl == first && monitor == second && exit0 == pair.value.0 && exit1 == pair.value.1 &&
                openedPaths == old(openedPaths) + [path, path] && closedHandles == old(closedHandles)
      ensures old(Disconnected()) ==> Disconnected() || Connected()
    {
      if status != "running" {
        return -1;
      }
      openedPaths := openedPaths + [path];
      ctrl := first;
      if ctrl.None? {
        return -1;
      }
      openedPaths := openedPaths + [path];
      monitor := second;
      if monitor.None? {
        closedHandles := closedHandles + [ctrl.value];
        ctrl := None;
        return -1;
      }
      if !attached {
        closedHandles := closedHandles + [monitor.value, ctrl.value];
        ctrl, monitor := None, None;
        return -1;
      }
      if pair.None? {
        closedHandles := closedHandles + [monitor.value, ctrl.value];
        ctrl, monitor := None, None;
        return -1;
      }
      exit0, exit1 := pair.value.0, pair.value.1;
      ret := 0;
    }

    /** `wifi_connect_to_supplicant`: connect on the control path chosen by
        whether IFACE_DIR exists. */
    method ConnectToSupplicant(dirExists: bool, status: string, first: Option<Handle>, second: Option<Handle>,
                               attached: bool, pair: Option<(nat, nat)>) returns (ret: int)
      modifies this
      ensures ret == 0 || ret == -1
      ensures primaryIface == old(primaryIface) && requests == old(requests) && cancelWrites == old(cancelWrites)
      ensures closedFds == old(closedFds)
      ensures status != "running" ==> ret == -1 && unchanged(this)
      ensures var path := ControlPath(dirExists, old(primaryIface));
              status == "running" && first.None? ==>
                ret == -1 && ctrl.None? && monitor == old(monitor) && openedPaths == old(openedPaths) + [path] &&
                closedHandles == old(closedHandles) && exit0 == old(exit0) && exit1 == old(exit1)
      ensures var path := ControlPath(dirExists, old(primaryIface));
              status == "running" && first.Some? && second.None? ==>
                ret == -1 && ctrl.None? && monitor.None? && openedPaths == old(openedPaths) + [path, path] &&
                closedHandles == old(closedHandles) + [first.value] && exit0 == old(exit0) && exit1 == old(exit1)
      ensures var path := ControlPath(dirExists, old(primaryIface));
              status == "running" && first.Some? && second.Some? && (!attached || pair.None?) ==>
                ret == -1 && ctrl.None? && monitor.None? && openedPaths == old(openedPaths) + [path, path] &&
                closedHandles == old(closedHandles) + [second.value, first.value] &&
                exit0 == old(exit0) && exit1 == old(exit1)
      ensures var path := ControlPath(dirExists, old(primaryIface));
              status == "running" && first.Some? && second.Some? && attached && pair.Some? ==>
                ret == 0 && ctrl == first && monitor == second && exit0 == pair.value.0 && exit1 == pair.value.1 &&
                openedPaths == old(openedPaths) + [path, path] && closedHandles == old(closedHandles)
      ensures ret == 0 ==> Connected()
      ensures old(Disconnected()) ==> Disconnected() || Connected()
    {
      ret := ConnectOnSocketPath(ControlPath(dirExists, primaryIface), status, first, second, attached, pair);
    }

    /** `wifi_send_command`. `request` is what `wpa_ctrl_request` returns and
        stores in `reply`, into which at most `replyCap` (the caller's
        `*reply_len`) characters fit; the returned `replyLen` is `*reply_len`
        afterwards. A timeout writes one cancel byte to `exit_sockets[0]`; a
        successful `PING` also terminates the reply; nothing else in `reply`
        changes. */
    method SendCommand(cmd: string, reply: array<char>, replyCap: nat, request: Request)
      returns (ret: int, replyLen: nat)
      requires 4 <= reply.Length && replyCap <= reply.Length && (IsPing(cmd) ==> replyCap < reply.Length)
      requires |request.reply| <= replyCap
      modifies this`requests, this`cancelWrites, reply
      ensures ret == -2 || ret == -1 || ret == 0
      ensures old(ctrl).None? ==>
                ret == -1 && replyLen == replyCap && requests == old(requests) &&
                cancelWrites == old(cancelWrites) && reply[..] == old(reply[..])
      ensures old(ctrl).Some? ==>
                var after := AfterRequest(old(reply[..]), request.reply);
                requests == old(requests) + [cmd] && replyLen == |request.reply| &&
                ret == CommandStatus(request.code, FailReply(after)) &&
                cancelWrites == (if ret == -2 then old(cancelWrites) + [exit0] else old(cancelWrites)) &&
                reply[..] == (if ret == 0 && IsPing(cmd) then after[|request.reply| := NUL] else after)
    {
      if ctrl.None? {
        return -1, replyCap;
      }
      requests := requests + [cmd];
      var i := 0;
      while i < |request.reply|
        invariant 0 <= i <= |request.reply|
        invariant forall k :: 0 <= k < i ==> reply[k] == request.reply[k]
        invariant forall k :: i <= k < reply.Length ==> reply[k] == old(reply[k])
        invariant requests == old(requests) + [cmd] && cancelWrites == old(cancelWrites)
      {
        reply[i] := request.reply[i];
        i := i + 1;
      }
      assert reply[..] == AfterRequest(old(reply[..]), request.reply);
      replyLen := |request.reply|;
      if request.code == -2 {
        cancelWrites := cancelWrites + [exit0];
        return -2, replyLen;
      } else if request.code < 0 || reply[..4] == "FAIL" {
        return -1, replyLen;
      }
      if |cmd| >= 4 && cmd[..4] == "PING" {
        reply[replyLen] := NUL;
      }
      ret := 0;
    }

    /** `wifi_wait_on_socket` with `buflen == buf.Length`: wait for the next event
        and leave it in `buf` as a C string, returning its untruncated length.
        `polls` are the outcomes of the poll loop, `recv` what `wpa_ctrl_recv`
        returns and stores (at most `buflen - 1` characters). With no monitor
        connection a buffer of size 0 is allowed: `snprintf` only measures. */
    method WaitOnSocket(buf: array<char>, polls: seq<Poll>, recv: Recv) returns (len: int)
      requires NUL !in primaryIface
      requires monitor.Some? ==> WakesFrom(polls, 0) && |recv.data| < buf.Length
      modifies buf
      ensures len == |WaitEvent(monitor.Some?, primaryIface, polls, recv)|
      ensures 1 <= buf.Length ==> HoldsCString(buf[..], WaitEvent(monitor.Some?, primaryIface, polls, recv))
      ensures buf.Length == 0 ==> len == |TerminatingEvent(primaryIface, CONNECTION_CLOSED)|
    {
      if monitor.None? {
        len := FormatInto(buf, TerminatingEvent(primaryIface, CONNECTION_CLOSED));
        return;
      }
      var result, polled := CtrlRecv(buf, polls, recv);
      if result == -2 {
        len := FormatInto(buf, TerminatingEvent(primaryIface, CONNECTION_CLOSED));
      } else if result < 0 {
        len := FormatInto(buf, TerminatingEvent(primaryIface, RECV_ERROR));
      } else {
        var nread := |recv.data|;
        if result == 0 && nread == 0 {
          len := FormatInto(buf, TerminatingEvent(primaryIface, SIGNAL_0));
        } else {
          assert buf[..nread] == recv.data;
          len := NormalizeInPlace(buf, nread);
        }
      }
    }

    /** `wifi_start_supplicant`. `status` is the daemon's status beforehand,
        `configOk` whether the primary configuration file could be ensured
        (`p2pOk` and `entropyOk`, the P2P configuration and the entropy file, do
        not matter), `snapshot` the status property's serial before `ctl.start`
        (None when the property does not exist yet), `ifaceProp` the
        `wifi.interface` property, and `obs` the status property at each poll. */
    method StartSupplicant(status: string, configOk: bool, p2pOk: bool, entropyOk: bool,
                           snapshot: Option<nat>, ifaceProp: string, obs: seq<Option<Observation>>)
      returns (ret: int, startIssued: bool, polls: nat)
      requires START_POLLS <= |obs|
      modifies this
      ensures ret == 0 || ret == -1
      ensures status == "running" ==> ret == 0 && !startIssued && polls == 0 && unchanged(this)
      ensures status != "running" && !configOk ==> ret == -1 && !startIssued && polls == 0 && unchanged(this)
      ensures status != "running" && configOk ==>
                startIssued && 0 < polls <= START_POLLS &&
                ret == StartVerdict(obs[..START_POLLS], if snapshot.Some? then snapshot.value else 0) &&
                exit0 == -1 && exit1 == -1 && primaryIface == InterfaceName(ifaceProp) &&
                ctrl == old(ctrl) && monitor == old(monitor) && openedPaths == old(openedPaths) &&
                closedHandles == old(closedHandles) && closedFds == old(closedFds) &&
                requests == old(requests) && cancelWrites == old(cancelWrites)
    {
      if status == "running" {
        return 0, false, 0;
      }
      if !configOk {
        return -1, false, 0;
      }
      exit0, exit1 := -1, -1;
      var serial: nat := if snapshot.Some? then snapshot.value else 0;
      primaryIface := InterfaceName(ifaceProp);
      startIssued := true;
      ret, polls := AwaitStart(obs, serial);
    }

    /** `wifi_close_supplicant_connection`: close the sockets, then wait (at most
        STOP_POLLS polls) for the supervisor to report the daemon stopped. */
    method CloseSupplicantConnection(statuses: seq<string>) returns (polls: nat)
      requires STOP_POLLS <= |statuses|
      modifies this
      ensures Disconnected()
      ensures closedHandles == old(closedHandles) +
                (if old(ctrl).Some? then [old(ctrl).value] else []) +
                (if old(monitor).Some? then [old(monitor).value] else [])
      ensures closedFds == old(closedFds) +
                (if old(exit0) >= 0 then [old(exit0)] else []) +
                (if old(exit1) >= 0 then [old(exit1)] else [])
      ensures exit0 == (if old(exit0) >= 0 then -1 else old(exit0))
      ensures exit1 == (if old(exit1) >= 0 then -1 else old(exit1))
      ensures primaryIface == old(primaryIface) && openedPaths == old(openedPaths)
      ensures requests == old(requests) && cancelWrites == old(cancelWrites)
      ensures polls <= STOP_POLLS
      ensures (exists i :: 0 <= i < STOP_POLLS && statuses[i] == "stopped") ==>
                0 < polls && statuses[polls - 1] == "stopped"
      ensures !(exists i :: 0 <= i < STOP_POLLS && statuses[i] == "stopped") ==> polls == STOP_POLLS
      ensures forall j :: 0 <= j < polls - 1 ==> statuses[j] != "stopped"
    {
      CloseSockets();
      var stopped;
      stopped, polls := PollUntilStopped(statuses, STOP_POLLS);
    }
  }
}
