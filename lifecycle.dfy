/** The bounded polling of `wifi_start_supplicant`, `wifi_stop_supplicant` and
    `wifi_close_supplicant_connection`: after asking the supervisor (`init`, through
    the `ctl.start` / `ctl.stop` properties) to change the daemon's state, read its
    status property every 100 ms a bounded number of times. The supervisor's
    answers are given as a sequence, one per poll. */
module Lifecycle {
  import opened CStrings

  /** Polls `wifi_start_supplicant` makes at most (20 s at 100 ms). */
  const START_POLLS: nat := 200
  /** Polls `wifi_stop_supplicant` and `wifi_close_supplicant_connection` make at most (5 s). */
  const STOP_POLLS: nat := 50

  /** The status property `init.svc.wpa_supplicant` at one poll: its change
      serial and its value. */
  datatype Observation = Observation(serial: nat, status: string)

  /** An observation that `wifi_start_supplicant` reads at all: the property
      exists and its serial moved away from the snapshot taken before `ctl.start`. */
  predicate Advanced(o: Option<Observation>, snapshot: nat)
  {
    o.Some? && o.value.serial != snapshot
  }

  /** An observation that ends the start loop: advanced, and `running` or `stopped`. */
  predicate Decides(o: Option<Observation>, snapshot: nat)
  {
    Advanced(o, snapshot) && (o.value.status == "running" || o.value.status == "stopped")
  }

  /** The verdict of the start loop over `obs`: 0 when the first deciding
      observation says `running`, -1 when it says `stopped` or none decides. */
  function StartVerdict(obs: seq<Option<Observation>>, snapshot: nat): (r: int)
    ensures r == 0 || r == -1
  {
    if obs == [] then -1
    else if Decides(obs[0], snapshot) then (if obs[0].value.status == "running" then 0 else -1)
    else StartVerdict(obs[1..], snapshot)
  }

  /** Start succeeds exactly when some observation with a fresh serial says
      `running` and no earlier one with a fresh serial said `running` or `stopped`;
      observations whose serial equals the snapshot never count. */
  lemma {:induction false} StartSucceedsIff(obs: seq<Option<Observation>>, snapshot: nat)
    ensures StartVerdict(obs, snapshot) == 0 <==>
            exists i :: 0 <= i < |obs| && Advanced(obs[i], snapshot) && obs[i].value.status == "running" &&
                        forall j :: 0 <= j < i ==> !Decides(obs[j], snapshot)
  {
    if obs != [] {
      StartSucceedsIff(obs[1..], snapshot);
      if StartVerdict(obs, snapshot) == 0 {
        if !Decides(obs[0], snapshot) {
          var i :| 0 <= i < |obs[1..]| && Advanced(obs[1..][i], snapshot) && obs[1..][i].value.status == "running" &&
                   forall j :: 0 <= j < i ==> !Decides(obs[1..][j], snapshot);
          assert obs[i + 1] == obs[1..][i];
          forall j | 0 <= j < i + 1 ensures !Decides(obs[j], snapshot) {
            if j > 0 { assert obs[j] == obs[1..][j - 1]; }
          }
        }
      } else {
        forall i | 0 <= i < |obs| && Advanced(obs[i], snapshot) && obs[i].value.status == "running"
          ensures exists j :: 0 <= j < i && Decides(obs[j], snapshot)
        {
          if i == 0 {
            assert false;
          } else if !Decides(obs[0], snapshot) {
            assert obs[1..][i - 1] == obs[i];
            var j :| 0 <= j < i - 1 && Decides(obs[1..][j], snapshot);
            assert obs[j + 1] == obs[1..][j];
          }
        }
      }
    }
  }

  /** A status that never leaves `starting` (or never gets a fresh serial) is a
      timeout: start fails. */
  lemma NeverRunningFails(obs: seq<Option<Observation>>, snapshot: nat)
    requires forall i :: 0 <= i < |obs| ==> !(Advanced(obs[i], snapshot) && obs[i].value.status == "running")
    ensures StartVerdict(obs, snapshot) == -1
  {
    StartSucceedsIff(obs, snapshot);
  }

  /** The polling loop of `wifi_start_supplicant` (lines 236-256): at most
      START_POLLS reads, stopping at the first deciding observation. */
  method AwaitStart(obs: seq<Option<Observation>>, snapshot: nat) returns (ret: int, polls: nat)
    requires START_POLLS <= |obs|
    ensures ret == StartVerdict(obs[..START_POLLS], snapshot)
    ensures 0 < polls <= START_POLLS
    ensures forall j :: 0 <= j < polls - 1 ==> !Decides(obs[j], snapshot)
    ensures polls < START_POLLS || ret == 0 ==> Decides(obs[polls - 1], snapshot)
  {
    var count: int := START_POLLS;
    polls := 0;
    while count > 0
      invariant 0 <= count <= START_POLLS && polls == START_POLLS - count
      invariant forall j :: 0 <= j < polls ==> !Decides(obs[j], snapshot)
      invariant StartVerdict(obs[..START_POLLS], snapshot) == StartVerdict(obs[polls..START_POLLS], snapshot)
    {
      count := count - 1;
      var o := obs[polls];
      polls := polls + 1;
      assert obs[polls - 1..START_POLLS][1..] == obs[polls..START_POLLS];
      if Advanced(o, snapshot) {
        if o.value.status == "running" {
          return 0, polls;
        } else if o.value.status == "stopped" {
          return -1, polls;
        }
      }
    }
    ret := -1;
  }

  /** The polling loop shared by `wifi_stop_supplicant` (lines 272-277) and
      `wifi_close_supplicant_connection` (lines 484-489): read the status at most
      `limit` times, stopping at the first `stopped`. */
  method PollUntilStopped(statuses: seq<string>, limit: nat) returns (stopped: bool, polls: nat)
    requires limit <= |statuses|
    ensures polls <= limit
    ensures stopped <==> exists i :: 0 <= i < limit && statuses[i] == "stopped"
    ensures stopped ==> 0 < polls && statuses[polls - 1] == "stopped"
    ensures !stopped ==> polls == limit
    ensures forall j :: 0 <= j < polls && j != polls - 1 ==> statuses[j] != "stopped"
  {
    var count: int := limit;
    polls := 0;
    while count > 0
      invariant 0 <= count <= limit && polls == limit - count
      invariant forall j :: 0 <= j < polls ==> statuses[j] != "stopped"
    {
      count := count - 1;
      var status := statuses[polls];
      polls := polls + 1;
      if status == "stopped" {
        return true, polls;
      }
    }
    stopped := false;
  }

  /** `wifi_stop_supplicant`, given the status before and the statuses read at
      each poll: 0 without asking the supervisor when already `stopped`;
      otherwise `ctl.stop` is issued and the result is 0 exactly when `stopped` is
      read within STOP_POLLS polls, -1 on exhaustion. */
  method StopSupplicant(status: string, statuses: seq<string>) returns (ret: int, stopIssued: bool, polls: nat)
    requires STOP_POLLS <= |statuses|
    ensures ret == 0 || ret == -1
    ensures status == "stopped" ==> ret == 0 && !stopIssued && polls == 0
    ensures status != "stopped" ==> stopIssued && 0 < polls <= STOP_POLLS
    ensures status != "stopped" ==>
              (ret == 0 <==> exists i :: 0 <= i < STOP_POLLS && statuses[i] == "stopped")
  {
    if status == "stopped" {
      return 0, false, 0;
    }
    stopIssued := true;
    var stopped;
    stopped, polls := PollUntilStopped(statuses, STOP_POLLS);
    ret := if stopped then 0 else -1;
  }
}
