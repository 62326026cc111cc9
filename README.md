# Soft-access-point API of the ESP-AT library, in Dafny

This project models the seven soft-access-point (soft-AP) API functions of
`esp_at_lib/src/esp/esp_ap.c`:

- `esp_ap_getip` and `esp_ap_setip` read and set the access point's IP, gateway and netmask.
- `esp_ap_getmac` and `esp_ap_setmac` read and set its MAC address.
- `esp_ap_configure` configures the access point.
- `esp_ap_list_sta` lists the connected stations.
- `esp_ap_disconn_sta` disconnects one station.

Each function follows the same steps:

1. It checks its arguments with `ESP_ASSERT` guards. A failed guard returns
   the parameter error before anything is allocated.
2. It allocates a zero-filled message record.
3. It stores the callback, its argument and the blocking flag in the record.
4. It sets the command tag and fills one payload variant. Fixed-size
   addresses are copied. Strings, the station array and output locations
   are stored by reference.
5. It hands the record and a timeout to the producer mailbox, and returns
   the status the dispatcher reports.

Modules:

- `EspTypes` (`esp_types.dfy`): addresses, the status and command
  enumerations, the completion arguments, and caller-owned variables as
  classes.
- `EspMsg` (`esp_msg.dfy`): the payload union, the record value, and the
  mutable record object `Msg`.
- `EspDriver` (`esp_driver.dfy`): the `Driver` object. It holds the producer
  mailbox as a sequence of submissions and counts allocated records.
- `EspApSpec` (`esp_ap_spec.dfy`): the specification as values.
  - `Admissible` is the guards of each function.
  - `Expected` is the request an accepted call submits.
  - `Submitted` is the mailbox contents that a sequence of calls produces.
  - The lemmas state the properties of the specification.
- `EspAp` (`esp_ap.dfy`): the seven functions as imperative methods.
  - Each method fills a fresh `Msg` field by field and appends it to the mailbox.
  - Each is proved against `Expected` through the two-state predicate `Performed`.
  - It also holds two caller methods showing what a later write to a
    passed buffer does to the queued record.

The password guard of `esp_ap_configure` accepts up to and including 64
characters (line 166). The parameter documentation says "less than 64"
(line 150). The model follows the code. `EspApSpec.PasswordOf64Accepted` states
that a 64-character password is accepted.

## Model

| member | source | states |
|---|---|---|
| EspApSpec.IsMulticast | esp_at_lib/src/esp/esp_ap.c:133 | The multicast test on a MAC holds exactly when the first byte is odd, i.e. bit 0 of byte 0 is set |
| EspApSpec.Submitted | esp_at_lib/src/esp/esp_ap.c:55-62 | A sequence of calls submits at most one request per call; every submitted request has a real command tag and carries that command's timeout |
| EspApSpec.GettersAlwaysSubmit | esp_at_lib/src/esp/esp_ap.c:51-62 | esp_ap_getip and esp_ap_getmac have no guard and submit for any output pointers, including all NULL |
| EspApSpec.SetIpRejectsOnlyNullIp | esp_at_lib/src/esp/esp_ap.c:83 | esp_ap_setip is rejected if and only if the address pointer is NULL; gateway and netmask are not checked |
| EspApSpec.SetIpDefaultsForNull | esp_at_lib/src/esp/esp_ap.c:71-72 | An accepted set-IP copies the address, and copies the gateway and netmask when given; when they are NULL, the record keeps the zero-filled default |
| EspApSpec.SetMacGuards | esp_at_lib/src/esp/esp_ap.c:132-133 | esp_ap_setmac is accepted if and only if the MAC is given and its first byte is even (multicast bit clear) |
| EspApSpec.ConfigureGuards | esp_at_lib/src/esp/esp_ap.c:165-170 | esp_ap_configure is accepted if and only if all of these hold: the SSID is non-NULL; the password is NULL or at most 64 long; ecn is one of the four supported types; ch <= 128; 1 <= max_sta <= 10. The hid value never changes the verdict |
| EspApSpec.PasswordOf64Accepted | esp_at_lib/src/esp/esp_ap.c:150-166 | A password of length 64 passes the guard and a longer one does not, which contradicts the parameter documentation |
| EspApSpec.ListStaGuards | esp_at_lib/src/esp/esp_ap.c:200-212 | esp_ap_list_sta is accepted if and only if the array is non-NULL and stal > 0; the record stores sta, stal and staf unchanged |
| EspApSpec.DisconnStaGuards | esp_at_lib/src/esp/esp_ap.c:231-236 | esp_ap_disconn_sta is accepted if and only if the MAC is given, and the record holds a copy of it |
| EspApSpec.AcceptedRecord | esp_at_lib/src/esp/esp_ap.c:172-182 | Every accepted call submits a record with the caller's evt_fn, evt_arg and blocking, and the function's command tag; the timeout is 10000 for esp_ap_configure and 1000 for all others |
| EspApSpec.PayloadOwnership | esp_at_lib/src/esp/esp_ap.c:58-60 | Set-IP, set-MAC and disconnect payloads refer to no caller object. Get-IP, get-MAC, configure and list payloads refer to exactly the non-NULL objects the caller passed |
| EspApSpec.SubmittedConcat | esp_at_lib/src/esp/esp_ap.c:62 | Requests of a concatenation of call sequences are the first sequence's requests followed by the second's: submission is append-only, in call order |
| EspApSpec.SubmittedAreAccepted | esp_at_lib/src/esp/esp_ap.c:135-140 | The mailbox holds exactly one request per accepted call, in call order, each equal to the request that call is expected to make |
| EspApSpec.RejectedCallsSubmitNothing | esp_at_lib/src/esp/esp_ap.c:132-135 | Calls that each fail a guard submit nothing at all |
| EspDriver.RequestsOf | esp_at_lib/src/esp/esp_ap.c:62 | The mailbox read as values has one request per submission |
| EspDriver.RequestsOfUnchanged | esp_at_lib/src/esp/esp_ap.c:62 | The values of queued records change only if those record objects change |
| EspDriver.RequestsOfSnoc | esp_at_lib/src/esp/esp_ap.c:62 | Appending a submission appends its record value and timeout to the mailbox read as values |
| EspDriver.Driver.constructor | esp_at_lib/src/esp/esp_ap.c:62 | A new driver has an empty mailbox and no allocated records |
| EspDriver.Driver.AllocMsg | esp_at_lib/src/esp/esp_ap.c:55 | Allocation yields a fresh zero-filled record with the caller's blocking flag and counts one more allocation |
| EspDriver.Driver.SendToProducerMbox | esp_at_lib/src/esp/esp_ap.c:62 | Submission appends exactly (record, timeout) to the mailbox and returns the dispatcher's status |
| EspMsg.Msg.constructor | esp_at_lib/src/esp/esp_ap.c:55 | A new record is the zero-filled blank record with the given blocking flag |
| EspMsg.Msg.SetEvt | esp_at_lib/src/esp/esp_ap.c:56 | Sets the callback and its argument and leaves every other field of the record unchanged |
| EspAp.SubmittedSingle | esp_at_lib/src/esp/esp_ap.c:55-62 | One call submits its expected request if it is admissible and nothing otherwise |
| EspAp.PerformedAppends | esp_at_lib/src/esp/esp_ap.c:55-62 | A performed call extends the mailbox, read as values, by exactly what the specification says that call submits |
| EspAp.EspApGetIp | esp_at_lib/src/esp/esp_ap.c:51-62 | Always submits one fresh record: CIPAP_GET, the three output pointers by reference, timeout 1000. Earlier entries are kept; the dispatcher's status is returned |
| EspAp.EspApSetIpAsWritten | esp_at_lib/src/esp/esp_ap.c:79-93 | The function as written: a NULL ip gives ParErr with nothing allocated or submitted. Otherwise ip, gw and nm are copied unconditionally, which is defined only when gw and nm are non-NULL |
| EspAp.SetIpNullGatewayCounterexample | esp_at_lib/src/esp/esp_ap.c:83-90 | A call with a given address and NULL gateway and netmask passes the guard, yet the unconditional copies are undefined for it |
| EspAp.EspApSetIp | esp_at_lib/src/esp/esp_ap.c:79-93 | A NULL ip gives ParErr and submits nothing. Otherwise it submits one CIPAP_SET record holding copies of ip and of gw and nm when given (zero when NULL), timeout 1000 |
| EspAp.EspApGetMac | esp_at_lib/src/esp/esp_ap.c:104-114 | Always submits one fresh CIPAPMAC_GET record holding the output pointer by reference, timeout 1000 |
| EspAp.EspApSetMac | esp_at_lib/src/esp/esp_ap.c:128-141 | A NULL or multicast MAC gives ParErr with nothing allocated or submitted. Otherwise it submits one CIPAPMAC_SET record holding a copy of the MAC, timeout 1000 |
| EspAp.EspApConfigure | esp_at_lib/src/esp/esp_ap.c:161-183 | Any failing guard gives ParErr with nothing allocated or submitted. Otherwise it submits one CWSAP_SET record holding SSID and password by reference and ch, ecn, max_sta, hid by value, timeout 10000 |
| EspAp.EspApListSta | esp_at_lib/src/esp/esp_ap.c:196-215 | A NULL array or stal = 0 gives ParErr, submits nothing and leaves *staf alone. Otherwise it sets *staf to 0 (when given) and submits one CWLIF record holding sta, stal and staf as passed, timeout 1000 |
| EspAp.EspApDisconnSta | esp_at_lib/src/esp/esp_ap.c:227-239 | A NULL MAC gives ParErr with nothing submitted. Otherwise it submits one CWQIF record holding a copy of the MAC, timeout 1000 |
| EspAp.SetMacThenReuse | esp_at_lib/src/esp/esp_ap.c:138 | After esp_ap_setmac, overwriting the caller's MAC variable leaves the queued record holding the address as it was at call time |
| EspAp.ConfigureThenOverwriteSsid | esp_at_lib/src/esp/esp_ap.c:175 | After esp_ap_configure, writing into the caller's SSID buffer changes what the queued record refers to: the record holds that buffer, which now has the new contents |

## Left out

- The dispatcher behind `espi_send_msg_to_producer_mbox` and
  `espi_initiate_cmd` is not part of this model: the producer/consumer
  mailbox, the worker thread and the semaphore wait in blocking mode. The
  mailbox is an append-only sequence. The status the dispatcher reports
  enters each method as the parameter `reply`.
- `esp/esp_private.h` is not part of this model: the `ESP_ASSERT` and
  `ESP_MSG_VAR_*` macros. A failed `ESP_ASSERT` is an early return of
  the parameter error. Allocation always yields a fresh zero-filled
  record; the memory error it can report is not modelled, and neither is
  the stack-versus-heap choice.
- Running the callback, encoding the AT command, parsing the response,
  the UART transport and persistence in the device's NVS area happen
  elsewhere in the library and are not modelled.
- The `ESP_CFG_MODE_ACCESS_POINT` conditional compilation (line 38) is
  taken as enabled.
- C strings are character arrays. `strlen` is the array's length;
  terminators are not modelled.
- `size_t` and pointer widths are unbounded naturals. Callback and argument
  pointers are opaque numbers.
- `esp_ecn_t` keeps the four supported encryption types by name; every
  other value is `Unlisted`.
- A program of several calls that reads the whole mailbox as values is not
  written as a method. `EspAp.PerformedAppends` and
  `EspApSpec.SubmittedConcat` state what such a program submits.

## Findings

| source | as written | input that shows it | evidently intended | confidence | as-written member | corrected member |
|---|---|---|---|---|---|---|
| esp_at_lib/src/esp/esp_ap.c:89-90 | The gateway and netmask are copied with `ESP_MEMCPY` unconditionally, though the guard (line 83) checks only `ip` and the documentation (lines 71-72) says NULL selects the default | `ip` non-NULL, `gw` = `nm` = NULL: the guard passes and both copies read through NULL | Copy the gateway and netmask only when given, leaving the zero-filled default otherwise | high from the code text; not executed | EspAp.EspApSetIpAsWritten, EspAp.SetIpNullGatewayCounterexample | EspAp.EspApSetIp, EspApSpec.SetIpDefaultsForNull |
