# wpa_supplicant control-channel client, modelled in Dafny

`libwifi_system/wifi.cpp` is Android's client for the control channel of
`wpa_supplicant`, the Wi-Fi daemon. It does five things:

- It asks the supervisor (`init`) to start or stop the daemon, then polls the
  daemon's status property until it changes.
- It opens two transport connections on the daemon's control socket: a command
  connection `ctrl_conn` and an attached monitor connection `monitor_conn`.
- It opens a socket pair `exit_sockets`. A timed-out command writes one cancel
  byte on this pair, and that byte unblocks a waiting event reader.
- It sends commands and classifies their replies.
- It waits for events. Each event string is rewritten in place to drop its `<N>`
  verbosity tag. A dead channel is reported as a synthetic
  `CTRL-EVENT-TERMINATING` event.

The model treats the transport (`wpa_ctrl_*`), `poll`, `socketpair`, the
property system and the file system as oracles. Their outcomes are parameters:
a sequence of poll results, a receive result, a request result, open/attach
outcomes, and a sequence of status observations. Five kinds of call are
recorded, in call order, in logs on the client object: `wpa_ctrl_open` (the
path), `wpa_ctrl_close` (the handle), `wpa_ctrl_request` (the command), `close`
(the descriptor) and the cancel-byte `write` (the descriptor). The requests
`ctl.start` and `ctl.stop` come back as returned flags. Nothing else that is
asked of the oracles is recorded.

Modules. One module per file, in dependency order:

- `CStrings` (`cstrings.dfy`): the C-string primitives. `strncmp` against a
  literal, `strchr` bounded by a terminator, and `snprintf` into a fixed
  `array<char>`.
- `EventNormalizer` (`normalizer.dfy`): the event-string normaliser.
  - `Normalize` is a pure function.
  - `NormalizeInPlace` rewrites the buffer with `strchr` and `memmove`. It is
    proved to leave `Normalize` of the received text in the buffer.
- `EventWait` (`events.dfy`): the poll loop of `wifi_ctrl_recv` and the event
  `wifi_wait_on_socket` delivers (`WaitEvent`).
- `Command` (`command.dfy`): how `wifi_send_command` classifies a reply.
- `Lifecycle` (`lifecycle.dfy`): the bounded count-down polling loops of start
  and stop.
- `WifiClient` (`client.dfy`): the class `Supplicant`. Its fields are the
  process-wide globals `ctrl_conn`, `monitor_conn`, `exit_sockets` and
  `primary_iface`; its methods are the operations that touch them.

## Model

| member | source | states |
|---|---|---|
| CStrings.HasPrefix | libwifi_system/wifi.cpp:432 | defines a `strncmp` against a literal: the first characters, as many as the literal has, equal it; an early NUL or a short text is a mismatch (also used at lines 335 and 338) |
| CStrings.StrEnd | libwifi_system/wifi.cpp:433-436 | the end of a C string is the first NUL at or after the start, or the end of the characters |
| CStrings.Find | libwifi_system/wifi.cpp:433-436 | `strchr` result: when found, the position holds `c`, lies before the terminator and no earlier position holds `c`; when not found, no `c` occurs before the terminator |
| CStrings.FindAt | libwifi_system/wifi.cpp:433 | a `c` with neither `c` nor NUL before it is exactly what `strchr` returns |
| CStrings.FindAbsent | libwifi_system/wifi.cpp:436-437 | with no `c` anywhere from the start position on, `strchr` finds nothing |
| CStrings.HoldsCString | libwifi_system/wifi.cpp:395-396 | defines the buffer that `snprintf(buf, buflen, ...)` leaves: as much of the text as fits in `buflen - 1` characters, then a NUL (also used for lines 403, 409, 417 and 443) |
| CStrings.HoldsWhole | libwifi_system/wifi.cpp:412 | characters followed by a NUL inside the buffer form the buffer's C string |
| CStrings.FormatInto | libwifi_system/wifi.cpp:395-396 | `snprintf` returns the untruncated length, leaves the text truncated to `buflen - 1` characters plus a NUL, and writes nothing past that; into a buffer of size 0 it writes nothing |
| EventNormalizer.Malformed | libwifi_system/wifi.cpp:432-444 | defines the malformed event: `IFNAME=` with no space before the terminator |
| EventNormalizer.Normalize | libwifi_system/wifi.cpp:432-460 | defines the text an event becomes: the ignore marker when malformed; `IFNAME=iface ` kept and a closed `<N>` after the first space dropped; a leading closed `<N>` dropped otherwise; anything else unchanged (its properties are the shape lemmas below and `NormalizeExcisesOneSpan`) |
| EventNormalizer.TaggedIfnameEvent | libwifi_system/wifi.cpp:432-441 | `IFNAME=iface <N>rest` becomes `IFNAME=iface rest`, with length `nread - (idx('>') - idx(' '))` |
| EventNormalizer.BareTaggedEvent | libwifi_system/wifi.cpp:445-450 | `<N>rest` without the `IFNAME=` prefix becomes `rest`, with length `nread - (idx('>') + 1)` |
| EventNormalizer.UntaggedIfnameEvent | libwifi_system/wifi.cpp:434-435 | an `IFNAME=` event whose first space is not followed by `<` is unchanged |
| EventNormalizer.UnclosedIfnameTag | libwifi_system/wifi.cpp:436-437 | an `IFNAME=` tag `<` with no closing `>` leaves the event unchanged |
| EventNormalizer.UnclosedBareTag | libwifi_system/wifi.cpp:445-447 | a leading `<` with no closing `>` leaves the event unchanged |
| EventNormalizer.UnprefixedEvent | libwifi_system/wifi.cpp:451-458 | an event with neither prefix is unchanged |
| EventNormalizer.MalformedIfnameEvent | libwifi_system/wifi.cpp:442-444 | an `IFNAME=` event with no space before its terminator is replaced by `CTRL-EVENT-IGNORE ` |
| EventNormalizer.StrEndAt | libwifi_system/wifi.cpp:412 | the terminator is located by its defining properties |
| EventNormalizer.NormalizeExcisesOneSpan | libwifi_system/wifi.cpp:432-460 | apart from the malformed case, normalising removes one contiguous span and never lengthens the event |
| EventNormalizer.NotIdempotent | libwifi_system/wifi.cpp:445-450 | one pass strips one tag: `<1><2>X` becomes `<2>X` and then `X` |
| EventNormalizer.ConnectedExample | libwifi_system/wifi.cpp:432-441 | `IFNAME=wlan0 <3>CTRL-EVENT-CONNECTED` becomes `IFNAME=wlan0 CTRL-EVENT-CONNECTED` |
| EventNormalizer.DisconnectedExample | libwifi_system/wifi.cpp:445-450 | `<2>CTRL-EVENT-DISCONNECTED` becomes `CTRL-EVENT-DISCONNECTED` |
| EventNormalizer.StrChr | libwifi_system/wifi.cpp:433 | the `strchr` loop over the buffer returns `Find` of its C string and reads nothing past the terminator |
| EventNormalizer.MoveLeft | libwifi_system/wifi.cpp:439 | a front-ward `memmove`: every cell of the destination range gets its source cell, and every other cell is unchanged |
| EventNormalizer.IfnameShift | libwifi_system/wifi.cpp:438-439 | the intended move sends the rest of the event and its terminator to just after the space, ending at the new terminator |
| EventNormalizer.IfnameShiftAsWritten | libwifi_system/wifi.cpp:438-439 | the move as written copies one byte more than the intended one, so its last read is `buf[nread + 1]`, one past the terminator |
| EventNormalizer.AsWrittenReadsPastBuffer | libwifi_system/wifi.cpp:438-439 | the move as written reads one byte past a 14-byte buffer holding `IFNAME=w <3>X` |
| EventNormalizer.IfnameShiftInBounds | libwifi_system/wifi.cpp:438-439 | the intended move stays inside every buffer that `recv` can fill |
| EventNormalizer.ExciseIfnameTag | libwifi_system/wifi.cpp:438-439 | after excising the tag, the buffer holds the head up to the space followed by the rest after `>`, terminated; length `nread - (m2 - m)`; nothing past `nread` changes |
| EventNormalizer.ExciseBareTag | libwifi_system/wifi.cpp:448-449 | after excising a bare tag, the buffer holds the suffix after `>`, terminated; length `nread - (m + 1)`; nothing past `nread` changes |
| EventNormalizer.NormalizeIfnameEvent | libwifi_system/wifi.cpp:433-444 | an `IFNAME=` event is rewritten in place to `Normalize` of it |
| EventNormalizer.NormalizeIfnameTag | libwifi_system/wifi.cpp:435-441 | an `IFNAME=` event whose first space is at `m` is rewritten in place to `Normalize` of it; with no `<` after the space it is left as received |
| EventNormalizer.NormalizeIfnameLevel | libwifi_system/wifi.cpp:436-440 | an `IFNAME=` event with `<` after its first space is rewritten in place to `Normalize` of it; without a closing `>` it is left as received |
| EventNormalizer.IfnameCases | libwifi_system/wifi.cpp:432-441 | an `IFNAME=` event with a space is never malformed; it keeps its text unless a `<` follows the space and a `>` closes it, and then loses exactly that tag |
| EventNormalizer.OtherCases | libwifi_system/wifi.cpp:445-458 | an event without `IFNAME=` is never malformed; it keeps its text unless it starts with `<` closed by a `>`, and then loses everything up to that `>` |
| EventNormalizer.NormalizeOtherEvent | libwifi_system/wifi.cpp:445-458 | any other event is rewritten in place to `Normalize` of it |
| EventNormalizer.NormalizeInPlace | libwifi_system/wifi.cpp:412-460 | the buffer ends up holding `Normalize` of the received characters as a C string; the result is its length, at most `nread` unless malformed; only the ignore marker may write past `buf[nread]` |
| EventWait.Wakes | libwifi_system/wifi.cpp:364-376 | defines a poll that ends the `do ... while (res == 0)` loop: anything but a timeout, or a timeout while the status is `stopped` |
| EventWait.TerminatingEvent | libwifi_system/wifi.cpp:395-396 | defines the synthetic event `IFNAME=<iface> CTRL-EVENT-TERMINATING  - <reason>` |
| EventWait.ResultEvent | libwifi_system/wifi.cpp:401-419 | defines the event for what `wifi_ctrl_recv` returned: `connection closed` for -2, `recv error` for another failure, `signal 0 received` for an empty read, otherwise `Normalize` of the data |
| EventWait.WaitEvent | libwifi_system/wifi.cpp:394-419 | defines the delivered event: `connection closed` without a monitor connection, otherwise `ResultEvent` of `RecvResult` (its properties are `WaitEventCases`, `DataBeforeCancel`, `CancelEndsWait` and `SyntheticEventsAreNormal`) |
| EventWait.ConnectionActive | libwifi_system/wifi.cpp:344-352 | -1 exactly when the status is `stopped`; an absent or other status gives 0 |
| EventWait.FirstWake | libwifi_system/wifi.cpp:364-376 | the poll that ends the `do ... while` loop wakes, and no earlier poll does |
| EventWait.FirstWakeAt | libwifi_system/wifi.cpp:364-376 | the first waking poll is the one that ends the loop |
| EventWait.ReadsMonitor | libwifi_system/wifi.cpp:378-379 | defines whether the waking poll had POLLIN on the monitor descriptor, so that `wpa_ctrl_recv` is called |
| EventWait.RecvResult | libwifi_system/wifi.cpp:364-385 | the receive code when the monitor descriptor has data; otherwise -1 (poll error) or -2 (stopped, exit socket, hangup) |
| EventWait.QuietTimeoutsPollAgain | libwifi_system/wifi.cpp:370-376 | timeouts while the status is anything but `stopped` (absent included) poll again and do not change the outcome |
| EventWait.TerminatingEventText | libwifi_system/wifi.cpp:42 | the synthetic event has two spaces before `-`, because the marker ends with a space |
| EventWait.SyntheticEventsAreNormal | libwifi_system/wifi.cpp:394-419 | for an interface name with no space and no NUL, the normaliser leaves every synthetic event unchanged |
| EventWait.WaitEventCases | libwifi_system/wifi.cpp:364-419 | a poll error gives `recv error`; a stopped timeout or exit socket/hangup gives `connection closed`; data goes to the receive path |
| EventWait.DataBeforeCancel | libwifi_system/wifi.cpp:378-380 | data on the monitor descriptor takes priority over a cancel byte in the same poll |
| EventWait.CancelEndsWait | libwifi_system/wifi.cpp:364-385 | after any number of live timeouts, a cancel byte ends the wait with `connection closed` |
| EventWait.ClosedExample | libwifi_system/wifi.cpp:394-397 | with no monitor connection and interface `wlan0`, the event is `IFNAME=wlan0 CTRL-EVENT-TERMINATING  - connection closed` |
| EventWait.CtrlRecv | libwifi_system/wifi.cpp:354-386 | returns `RecvResult` after exactly `FirstWake + 1` polls; stores the received data only when the monitor descriptor had data; otherwise the buffer is unchanged |
| Command.FailReply | libwifi_system/wifi.cpp:335 | defines the `FAIL` test on the first four characters of the reply buffer |
| Command.IsPing | libwifi_system/wifi.cpp:338 | defines the `PING` test on the first four characters of the command |
| Command.CommandStatus | libwifi_system/wifi.cpp:329-341 | -2 exactly on a transport timeout; -1 exactly on another transport error or a `FAIL` reply; 0 otherwise |
| Command.TimeoutWins | libwifi_system/wifi.cpp:329-335 | a timeout stays -2 whatever the reply buffer holds |
| Command.AfterRequest | libwifi_system/wifi.cpp:329 | the reply buffer holds the stored reply at its front and its old contents after that |
| Command.StaleFailMarker | libwifi_system/wifi.cpp:335 | a two-character reply `FA` over a stale `FAIL` is classified as `FAIL` |
| Lifecycle.Advanced | libwifi_system/wifi.cpp:237-245 | defines an observation that the start loop reads at all: the property exists and its serial differs from the snapshot |
| Lifecycle.Decides | libwifi_system/wifi.cpp:237-251 | defines an observation that ends the start loop: it is advanced and says `running` or `stopped` |
| Lifecycle.StartVerdict | libwifi_system/wifi.cpp:236-256 | the start loop over the observations gives only 0 or -1 |
| Lifecycle.StartSucceedsIff | libwifi_system/wifi.cpp:236-256 | start succeeds exactly when an observation with a fresh serial says `running` and no earlier fresh observation said `running` or `stopped` |
| Lifecycle.NeverRunningFails | libwifi_system/wifi.cpp:236-256 | if no fresh observation ever says `running`, start fails |
| Lifecycle.AwaitStart | libwifi_system/wifi.cpp:236-256 | the start loop returns `StartVerdict` of the first 200 observations after 1 to 200 polls, stopping at the first deciding one |
| Lifecycle.PollUntilStopped | libwifi_system/wifi.cpp:272-277 | polls at most `limit` times; reports stopped exactly when a `stopped` occurs within the limit, and then stops right at the first one |
| Lifecycle.StopSupplicant | libwifi_system/wifi.cpp:259-280 | 0 without `ctl.stop` when already stopped; otherwise 0 exactly when `stopped` is read within 50 polls |
| WifiClient.ControlPath | libwifi_system/wifi.cpp:466-475 | the control path is `IFACE_DIR/iface` when the directory exists, and `@android:wpa_iface` otherwise |
| WifiClient.ControlPathInjective | libwifi_system/wifi.cpp:466-475 | different interfaces, or the two namespaces, never share a control path |
| WifiClient.InterfaceName | libwifi_system/wifi.cpp:231 | the interface is the property value when set, and `sta` otherwise |
| WifiClient.Supplicant.constructor | libwifi_system/wifi.cpp:66-71 | at start-up the handles are NULL and both exit sockets are zero |
| WifiClient.Supplicant.CloseSockets | libwifi_system/wifi.cpp:94-114 | closes the command connection, then the monitor connection, then each non-negative exit descriptor, leaving all four absent; on an already-closed client it changes nothing |
| WifiClient.Supplicant.ConnectOnSocketPath | libwifi_system/wifi.cpp:284-321 | -1, opening nothing, unless `running`; each later failure leaves both handles NULL with each opened handle closed once, newest first; success holds both handles and the pair |
| WifiClient.Supplicant.ConnectToSupplicant | libwifi_system/wifi.cpp:466-475 | opens `ControlPath` of the current interface once or twice, with each outcome of `ConnectOnSocketPath`: after a failed first open nothing is closed; after a later failure both handles are NULL, the opened ones closed newest first, the exit descriptors as they were; on success both handles and the pair are held; from a disconnected state the result is fully disconnected or fully connected |
| WifiClient.Supplicant.SendCommand | libwifi_system/wifi.cpp:323-342 | with no command connection: -1 with no request and no cancel byte; otherwise the result is `CommandStatus`; one cancel byte goes to `exit_sockets[0]` exactly on -2; a successful `PING` also terminates the reply, and nothing else in it changes |
| WifiClient.Supplicant.WaitOnSocket | libwifi_system/wifi.cpp:388-461 | the result is the untruncated length of `WaitEvent` and a non-empty buffer holds it as a C string; a buffer of size 0 is allowed without a monitor connection |
| WifiClient.Supplicant.StartSupplicant | libwifi_system/wifi.cpp:183-257 | 0 without `ctl.start` when already running; -1 when the primary configuration file fails (P2P and entropy failures are ignored); otherwise resets the exit sockets, records the interface and returns `StartVerdict` against the snapshot serial |
| WifiClient.Supplicant.CloseSupplicantConnection | libwifi_system/wifi.cpp:477-490 | closes the sockets with the new state `CloseSockets` gives (close logs, exit descriptors -1, other logs unchanged), then polls at most 50 times, stopping at the first `stopped`, and exactly 50 times when none is read |

## Left out

- `ensure_config_file_exists` and `ensure_entropy_file_exists` (lines 116-177 and 500-542) are file-system I/O. `StartSupplicant` takes their outcomes as the booleans `configOk`, `p2pOk` and `entropyOk`. `dummy_key` goes with them.
- `wpa_ctrl_cleanup`, the `wpa_ctrl_*` stubs (lines 39-60) and the real transport library are foreign code. Their results are parameters. The `Supplicant` logs record the calls to `wpa_ctrl_open`, `wpa_ctrl_close`, `wpa_ctrl_request`, `close` and the cancel `write`. The calls to `wpa_ctrl_cleanup` (line 215), `wpa_ctrl_attach` (line 306), `wpa_ctrl_get_fd` (line 356) and `wpa_ctrl_recv` (line 379) are not logged; only their outcomes are given.
- The property system comes in as data:
  - `property_get` is a status string, where `""` means the property is absent.
  - `__system_property_find` and `__system_property_serial` form an `Option<Observation>` per poll.
  - `property_set("ctl.start" / "ctl.stop")` is the returned flag `startIssued` / `stopIssued`.
  - The model allows an observation to vanish after it has appeared. The real property never disappears once found, so this is a generalisation.
- `usleep`, `sched_yield` and the 30-second poll timeout are not modelled. Loops are bounded by iteration count only.
- `EINTR` retries (`TEMP_FAILURE_RETRY`) are not modelled. A retried call is treated as the one call whose result is given.
- The cross-thread interaction between the command thread and the event thread is left out. Only its single-threaded effect is modelled: the cancel byte is logged in `cancelWrites`, and `CancelEndsWait` shows the effect of that byte arriving at the exit socket.
- EventWait.CtrlRecv and WifiClient.Supplicant.WaitOnSocket: the poll loop of `wifi_ctrl_recv` can run forever while the daemon stays alive and quiet. These members require that some poll in the given sequence ends the loop, so they model only runs that return.
- EventWait.CtrlRecv: what `wpa_ctrl_recv` stores is given as one datum. Whether it stores data on failure is the transport's business.
- WifiClient.Supplicant.WaitOnSocket requires `|recv.data| < buflen` when the monitor connection is open. That is how much `wifi_ctrl_recv` lets the transport store.
- WifiClient.Supplicant.WaitOnSocket: with the monitor connection open and `buflen == 0`, line 389 wraps `size_t nread` to its maximum and the transport is told it may store that much. The model does not follow this wrap-around: that case is excluded by the requirement above. With no monitor connection a buffer of size 0 is modelled, as `snprintf` allows.
- WifiClient.Supplicant.SendCommand requires, for a `PING` command only, that the caller's `*reply_len` is less than the reply buffer's size. Line 339 writes the terminator at `reply[*reply_len]`, and a reply that fills a buffer passed at full size would put it one cell past the end. Keeping that cell free is the caller's duty; other commands may pass the full size.
- `PROPERTY_VALUE_MAX` and `PATH_MAX` truncation of the interface name and the control path are not modelled. Synthetic events are truncated as `snprintf` truncates them.
- `wifi_wait_for_event` and `wifi_command` (lines 492-498) only forward to the modelled functions.
- EventNormalizer.ExciseIfnameTag and EventNormalizer.NormalizeInPlace use the corrected count of `IfnameShift`, not the count of line 439 (see Findings). The source's move copies one byte more. It reads `buf[nread + 1]`, one past the old terminator, and writes that byte to `buf[len + 1]`, the cell just after the new terminator. The model makes neither that read nor that write. The C string left in the buffer and the returned length are the same, and nothing past `buf[nread]` is written in either. The only difference is that one cell.
- WifiClient.Supplicant.SendCommand requires `4 <= reply.Length`. This is a duty of the caller: line 335's `strncmp` reads up to four characters of a reply buffer that the transport does not terminate, so a shorter buffer could be read past its end.
- The `ALOGV`/`ALOGD`/`ALOGW`/`ALOGE` diagnostic logging calls are not modelled. They only write to the system log and change no state the client reads.
- Behaviours a reader might expect but the code does not have. The source promises none of them, and the model follows the code:
  - Normalising is not idempotent: one pass strips one tag (`NotIdempotent`).
  - The synthetic terminating event has two spaces before `-`, because the marker ends with a space (`TerminatingEventText`).

## Findings

| source | as written | input that shows it | evidently intended | confidence | as-written member | corrected member |
|---|---|---|---|---|---|---|
| libwifi_system/wifi.cpp:438-439 | after `nread -= (match2 - match)`, the `memmove` moves `nread - (match - buf) + 1` bytes from `match2 + 1`, which is one byte more than the rest of the event plus its terminator, so it reads `buf[old nread + 1]` | `IFNAME=w <3>X` received into a 14-byte buffer (`nread == buflen - 1 == 13`, space at 8, `>` at 11): the move reads 3 bytes starting at index 12, the last at index 14, while the last index of the buffer is 13 | move `nread - (match - buf)` bytes, ending at the terminator | not executed | EventNormalizer.IfnameShiftAsWritten, EventNormalizer.AsWrittenReadsPastBuffer | EventNormalizer.IfnameShift, EventNormalizer.IfnameShiftInBounds, EventNormalizer.NormalizeInPlace |
