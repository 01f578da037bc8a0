# SYS_I2C logical-bus arbitration, modelled in Dafny

SYS_I2C lets an ESP32 application use more logical I2C buses (`sys_i2c_id`)
than the chip has hardware controllers (ports). Each bus owns a pair of GPIO
pins. A port serves several buses because every transaction does the
following in order:

1. takes the port's mutex;
2. routes its bus's pins to the controller;
3. composes and runs an I2C command list;
4. parks the pins again as open-drain GPIOs;
5. gives the mutex back.

At start-up, `sys_i2c_runtime_init` merges two configuration tables into one
runtime table: the board's pin table (keyed by board and bus) and the system
table (port keyed by bus, clock keyed by port). It checks the result with
C `assert`s. `sys_i2c_init_all` then sets up each port the table uses, once:
configuration, driver install and mutex creation. On failure it deletes the
mutexes it created. `sys_i2c_scan_print` probes every address of every bus
and counts the devices that answer.

The project has six modules, one per file:

- `I2cTypes` (`i2c_types.dfy`): the header's constants and record shapes.
- `I2cCommands` (`i2c_commands.dfy`): the command lists a read, a write and a
  probe compose. Framing follows the I2C-bus specification, NXP UM10204:
  START / repeated START / STOP in section 3.1.4, ACK and NACK in section
  3.1.6, and the 7-bit address with the R/W bit in section 3.1.10. The file
  also holds a bus-monitor parser that reads the lists back as their partner.
- `RuntimeTable` (`runtime_table.dfy`): the merge and the builder's checks,
  as pure functions.
- `EventTrace` (`event_trace.dfy`): the record of calls into the hidden
  dependencies, and its projections on one port's lock, on link deletions
  and on one port's set-up.
- `ScanReport` (`scan_report.dfy`): the scan order, the presence flags and
  the device count.
- `Arbiter` (`sys_i2c.dfy`): class `SysI2c` with the global state as fields:
  - `units`: the runtime table;
  - `lockLive`: the per-port mutex slots;
  - `pins`: the GPIO matrix;
  - `link` and `linkLive`: the command link;
  - a ghost `trace`.

  Every C function of the component is a method of this class.

The ESP-IDF driver, `gpio_config` and FreeRTOS calls are the class's
"Dependencies" methods. Each one picks its result arbitrarily and appends
what it was asked and what it answered to `trace`. The transaction methods
are stated against that trace:

- the exact sequence of calls on success;
- the argument-check path, which records only a detach;
- the lock and pin bracket on every path.

A C `assert` that fails ends start-up with an abort outcome, because asserts
are enabled in the default build.

The model follows the code as written, including three behaviours the
contracts expose:

- A probe whose executor returns neither ESP_OK nor ESP_FAIL gives the lock
  twice and deletes the deleted command link again (`ProbeErrorReleasesTwice`).
- A read, write or probe whose detach or give fails after the link was
  deleted deletes it a second time. Each method's `LinkDelete(false) in log`
  clause says exactly when this happens.
- When an argument check fails for a valid bus id, the bus's pins are
  detached without holding the lock (`Rejected`).

## Model

| member | source | states |
|---|---|---|
| I2cCommands.AddrByte | components/sys_i2c/sys_i2c.c:273 | the address byte carries the 7-bit address in its upper bits and the R/W direction (0 write, 1 read) in bit 0 |
| I2cCommands.AddrByteInjective | components/sys_i2c/sys_i2c.c:273-276 | distinct (address, direction) pairs give distinct address bytes |
| I2cCommands.ReadCommandsFraming | components/sys_i2c/sys_i2c.c:271-279 | a read of n bytes is START, address+W, register, repeated START, address+R, n-1 reads answered with ACK, a last read answered with NACK, STOP |
| I2cCommands.WriteCommandsFraming | components/sys_i2c/sys_i2c.c:323-328 | a write is START, address+W, register, the payload bytes in order, STOP, with no START after the first element |
| I2cCommands.ParseReadCommands | components/sys_i2c/sys_i2c.c:271-279 | a bus monitor reads the read list back as a register read of that address, register and byte count |
| I2cCommands.ParseWriteCommands | components/sys_i2c/sys_i2c.c:323-328 | a bus monitor reads the write list back as a register write of that address, register and payload |
| I2cCommands.ParseProbeCommands | components/sys_i2c/sys_i2c.c:376-379 | a bus monitor reads the probe list back as an address probe of that address |
| I2cCommands.JoinReadChunks | components/sys_i2c/sys_i2c.c:272-279 | the i2c_master_* calls of a read, including the multi-byte ACKed read made only when n > 1, compose the read list |
| I2cCommands.JoinWriteChunks | components/sys_i2c/sys_i2c.c:324-328 | the calls of a write, with the payload as one i2c_master_write, compose the write list |
| I2cCommands.JoinProbeChunks | components/sys_i2c/sys_i2c.c:377-379 | the three calls of a probe compose the probe list |
| RuntimeTable.FirstOn | components/sys_i2c/sys_i2c.c:78-84 | the index of the first bus on a port is in range and no earlier bus uses that port; it is the bus that sets the port up |
| RuntimeTable.BusErrorNoneIffValid | components/sys_i2c/sys_i2c.c:155-172 | a bus passes every check iff its port is below I2C_NUM_MAX and its merged entry has connected, distinct, output-capable pins, 0 < clock <= 1 MHz and, when flags are enabled, flags <= 3 |
| RuntimeTable.ValidBoardTable | components/sys_i2c/sys_i2c.c:148-176 | from an accepted board every runtime entry is valid, takes its pins from the board table, its port from the bus's entry and its clock and flags from that port's entry |
| RuntimeTable.ClockKeyedByPort | components/sys_i2c/sys_i2c.c:158-159 | two buses on the same port get the same clock speed and flags |
| RuntimeTable.RejectsViolations | components/sys_i2c/sys_i2c.c:155-169 | a port out of range, equal pins, or a zero or too-high clock each make the bus fail the corresponding check |
| RuntimeTable.DefaultConfigValid | main/app_config.c:49-70 | the shipped configuration (one bus, sda 4 / scl 3, port 0 at 400 kHz) passes every check and merges to that single entry |
| ScanReport.TargetsAt | components/sys_i2c/sys_i2c.c:422-457 | the k-th probe target of the scan is bus k / 128 at address k % 128 |
| ScanReport.TargetsDistinct | components/sys_i2c/sys_i2c.c:422-457 | no (bus, address) pair is probed twice |
| ScanReport.TargetsCover | components/sys_i2c/sys_i2c.c:422-457 | every address 0x00..0x7F of every bus is a probe target |
| ScanReport.TargetsPrefix | components/sys_i2c/sys_i2c.c:422 | the targets of the first buses are a prefix of the targets of more buses |
| ScanReport.CountTrueBound | components/sys_i2c/sys_i2c.c:451-453 | the device count never exceeds the number of probes |
| ScanReport.AfterBus | components/sys_i2c/sys_i2c.c:422-459 | a bus scanned completely extends the scanned buses by one; a bus scan that failed ends the whole scan with false, its probes in scan order and stopped at the failed one |
| ScanReport.LogsConcat | components/sys_i2c/sys_i2c.c:422-457 | the calls of two runs of probes are the calls of the first run followed by those of the second |
| ScanReport.BusStep | components/sys_i2c/sys_i2c.c:449-456 | after a successful probe of the next address the bus scan is still on track with the count raised iff the device acknowledged; a failed probe ends the bus scan with false, stopped at that probe |
| ScanReport.BusDone | components/sys_i2c/sys_i2c.c:440-457 | a bus scan that reached the end of the address range probed all 128 addresses of that bus in order |
| ScanReport.ScanComplete | components/sys_i2c/sys_i2c.c:422-463 | a scan that went through every bus probed every target in order and counted the acknowledgements |
| Arbiter.SwapRestores | components/sys_i2c/sys_i2c.c:193-245 | attaching then detaching a bus parks both its pins whatever they were before and leaves every other pin unchanged |
| Arbiter.SysI2c.constructor | components/sys_i2c/sys_i2c.c:36 | the global runtime table starts zeroed, with no live lock, no routed pin and no command link |
| Arbiter.SysI2c.BuiltTable | components/sys_i2c/sys_i2c.c:148-176 | the table built from an accepted board has one valid entry per bus |
| Arbiter.SysI2c.I2cParamConfig | components/sys_i2c/sys_i2c.c:98 | i2c_param_config is recorded with the i2c_config_t built from the entry and routes the pins to the port on success |
| Arbiter.SysI2c.I2cDriverInstall | components/sys_i2c/sys_i2c.c:101 | i2c_driver_install is recorded with its result |
| Arbiter.SysI2c.SemaphoreCreate | components/sys_i2c/sys_i2c.c:104 | the created mutex, or NULL, is stored in the port's lock slot |
| Arbiter.SysI2c.SemaphoreDelete | components/sys_i2c/sys_i2c.c:120-121 | deleting the port's mutex empties its lock slot |
| Arbiter.SysI2c.SemaphoreTake | components/sys_i2c/sys_i2c.c:265 | xSemaphoreTake is recorded with its result |
| Arbiter.SysI2c.SemaphoreGive | components/sys_i2c/sys_i2c.c:286 | xSemaphoreGive is recorded with its result |
| Arbiter.SysI2c.GpioIdle | components/sys_i2c/sys_i2c.c:227-238 | gpio_config parks one pin as an open-drain GPIO on success |
| Arbiter.SysI2c.CmdLinkCreate | components/sys_i2c/sys_i2c.c:271 | a new link is empty and live exactly when its handle is not NULL |
| Arbiter.SysI2c.CmdAppend | components/sys_i2c/sys_i2c.c:272-279 | an accepted i2c_master_* call appends its commands to the link; a refused one leaves it unchanged |
| Arbiter.SysI2c.CmdLinkDelete | components/sys_i2c/sys_i2c.c:282 | the deletion is recorded with whether the handle was still live, and the handle is dead afterwards |
| Arbiter.SysI2c.CmdBegin | components/sys_i2c/sys_i2c.c:381 | the executor runs the composed link on the port with the given timeout and its result is recorded |
| Arbiter.SysI2c.CmdBeginRead | components/sys_i2c/sys_i2c.c:281 | the executor of a read stores the received bytes into buf[..size] and leaves the rest of the buffer unchanged |
| Arbiter.SysI2c.RuntimeInit | components/sys_i2c/sys_i2c.c:137-183 | false iff there are no buses; true iff the selected board passes every check, and then the table is the merged table; otherwise the abort names the first check failed |
| Arbiter.SysI2c.RollBack | components/sys_i2c/sys_i2c.c:118-123 | the fail label deletes exactly the locks of the ports marked set up, leaving each port's set-up calls rolled back and the other lock slots as they were at entry |
| Arbiter.SysI2c.DeleteIfSetUp | components/sys_i2c/sys_i2c.c:120-121 | a port's lock is deleted iff it was marked set up |
| Arbiter.SysI2c.RollBackPort | components/sys_i2c/sys_i2c.c:120-121 | deleting a marked port's lock turns its complete set-up into a rolled-back one |
| Arbiter.SysI2c.SetUpPort | components/sys_i2c/sys_i2c.c:86-106 | a port's set-up configures, installs and creates the lock, stopping at the first refused driver call with the lock slots unchanged |
| Arbiter.SysI2c.InitAll | components/sys_i2c/sys_i2c.c:67-124 | true leaves every entry valid with a live lock and every used port set up exactly once with its first bus; false means no buses or a refused driver call with exactly the locks created here deleted; an abort names the failed check or the NULL mutex |
| Arbiter.SysI2c.FailedSetUpState | components/sys_i2c/sys_i2c.c:98-101 | a refused driver call leaves the unmarked port with only that refusal and the marked ports fully set up |
| Arbiter.SysI2c.SetUpStep | components/sys_i2c/sys_i2c.c:98-112 | setting up the port of bus id with that bus marks the port and keeps every earlier bus's port marked and set up once |
| Arbiter.SysI2c.MarkStep | components/sys_i2c/sys_i2c.c:109-112 | the switch on port_num marks bus id's port and keeps earlier marks |
| Arbiter.SysI2c.PortStep | components/sys_i2c/sys_i2c.c:86-112 | each port after bus id's step is set up once if marked and untouched otherwise |
| Arbiter.SysI2c.SkipStep | components/sys_i2c/sys_i2c.c:83-84 | a bus whose port is already marked is skipped with nothing recorded |
| Arbiter.SysI2c.SetUpFailed | components/sys_i2c/sys_i2c.c:98-101 | a refused i2c_param_config or i2c_driver_install, followed by the fail label, leaves every port's set-up rolled back and the other lock slots as at entry |
| Arbiter.SysI2c.SetUpBus | components/sys_i2c/sys_i2c.c:81-112 | one loop pass either sets up the bus's port and marks it, or returns false after the rollback, or aborts on a NULL mutex |
| Arbiter.SysI2c.SetUpPorts | components/sys_i2c/sys_i2c.c:78-117 | the loop sets up each used port exactly once, with the first bus on it, and stops early once both are done |
| Arbiter.SysI2c.AttachPins | components/sys_i2c/sys_i2c.c:193-217 | an id out of range is refused with no call; otherwise the port is configured with the bus's pins and clock, which routes both pins to it |
| Arbiter.SysI2c.DetachPins | components/sys_i2c/sys_i2c.c:221-245 | an id out of range is refused; otherwise SCL then SDA are parked, stopping at the first refusal, so a refused SDA leaves SCL parked and nothing else changed |
| Arbiter.SysI2c.Abandon | components/sys_i2c/sys_i2c.c:291-296 | the fail label detaches the pins, deletes the link when a handle was obtained, even one already deleted, and gives the lock last when it was taken; it runs no executor |
| Arbiter.SysI2c.AppendAll | components/sys_i2c/sys_i2c.c:272-279 | the chain of i2c_master_* calls succeeds iff every call is accepted, and then the link holds the joined command list |
| Arbiter.SysI2c.Prepare | components/sys_i2c/sys_i2c.c:268-279 | attach, link creation and composition succeed iff every call is accepted, and then the pins are routed and the link holds the list; no executor run is among these calls |
| Arbiter.SysI2c.Finish | components/sys_i2c/sys_i2c.c:282-286 | link deletion, detach and give succeed iff every call is accepted, and then the pins are parked; no executor run is among these calls |
| Arbiter.SysI2c.PreparedQuiet | components/sys_i2c/sys_i2c.c:268-279 | the steps before the executor touch no lock and delete no link |
| Arbiter.SysI2c.FinishedGives | components/sys_i2c/sys_i2c.c:281-286 | after the executor, the only lock operation of a successful transaction is its final give |
| Arbiter.SysI2c.FinishedDeletes | components/sys_i2c/sys_i2c.c:281-286 | after the executor, a successful transaction deletes the link exactly once |
| Arbiter.SysI2c.TransactionDiscipline | components/sys_i2c/sys_i2c.c:264-287 | a successful transaction takes the lock first and gives it last with nothing in between, runs the executor while owning it, and deletes the link once |
| Arbiter.SysI2c.ProbeErrorReleasesTwice | components/sys_i2c/sys_i2c.c:386-402 | a probe whose executor returned another error takes the lock once, gives it twice and deletes the link twice |
| Arbiter.SysI2c.LockedEndsWithGive | components/sys_i2c/sys_i2c.c:286 | the locked part of a successful transaction ends with the give |
| Arbiter.SysI2c.Refuse | components/sys_i2c/sys_i2c.c:256-260 | an argument check that fails records only the detach of a valid bus's pins, with no lock taken |
| Arbiter.SysI2c.TakeOrRefuse | components/sys_i2c/sys_i2c.c:265 | a refused take leads to a detach only, with no lock owned, no give and no link deletion |
| Arbiter.SysI2c.HeldAfterTake | components/sys_i2c/sys_i2c.c:264-265 | a successful take before the locked steps refuses nothing and runs no executor, and the give that ends them leaves the lock free |
| Arbiter.SysI2c.CleanUpAfter | components/sys_i2c/sys_i2c.c:289-296 | the fail label after the locked steps runs no executor, keeps every earlier call and refusal, and ends the record with its give |
| Arbiter.SysI2c.ReadLocked | components/sys_i2c/sys_i2c.c:268-286 | the locked steps of a read succeed iff every call is accepted and the executor returned ESP_OK; the buffer beyond size is untouched; the reported executor answer is what every recorded executor run answered, and nothing exactly when no run is recorded |
| Arbiter.SysI2c.ReadHeld | components/sys_i2c/sys_i2c.c:268-296 | after the take, a read ends with the give on every path and parks the pins unless a gpio_config was refused; the reported executor answer is what every recorded executor run answered, and nothing exactly when no run is recorded |
| Arbiter.SysI2c.Read | components/sys_i2c/sys_i2c.c:250-297 | true iff the arguments pass, every call is accepted and the executor returned ESP_OK, and then the record is exactly the successful transaction with the 1000 ms timeout and the received bytes in buf[..size]; bad arguments take no lock; the lock is never left owned; the reported executor answer is what every recorded executor run answered, and nothing exactly when no run is recorded |
| Arbiter.SysI2c.WriteLocked | components/sys_i2c/sys_i2c.c:320-335 | the locked steps of a write succeed iff every call is accepted and the executor returned ESP_OK; the reported executor answer is what every recorded executor run answered, and nothing exactly when no run is recorded |
| Arbiter.SysI2c.WriteHeld | components/sys_i2c/sys_i2c.c:320-345 | after the take, a write ends with the give on every path and parks the pins unless a gpio_config was refused; the reported executor answer is what every recorded executor run answered, and nothing exactly when no run is recorded |
| Arbiter.SysI2c.Write | components/sys_i2c/sys_i2c.c:302-346 | true iff the arguments pass, every call is accepted and the executor returned ESP_OK, and then the record is exactly the successful transaction sending buf[..size] with the 1000 ms timeout; bad arguments take no lock; the buffer is never written; the reported executor answer is what every recorded executor run answered, and nothing exactly when no run is recorded |
| Arbiter.SysI2c.ProbeLocked | components/sys_i2c/sys_i2c.c:373-386 | the locked steps of a probe succeed iff every call is accepted, whatever the executor returned, which is reported; when the executor did not run, a call was refused; the reported executor answer is what every recorded executor run answered, and nothing exactly when no run is recorded; when the executor ran, the 30 ms strobe of the address is recorded with the reported answer |
| Arbiter.SysI2c.ProbeHeld | components/sys_i2c/sys_i2c.c:373-403 | after the take, a probe ends with the give, sets the flag from ESP_OK or ESP_FAIL, and otherwise runs the fail label a second time; the reported executor answer is what every recorded executor run answered, and nothing exactly when no run is recorded; when the executor ran, the 30 ms strobe of the address is recorded with the reported answer |
| Arbiter.SysI2c.Probe | components/sys_i2c/sys_i2c.c:356-404 | true iff the arguments pass, every call is accepted and the executor answered ESP_OK or ESP_FAIL, and then the flag says whether it was ESP_OK and the record is the successful 30 ms address strobe; on false the flag is not written; with valid arguments, an executor that never ran means a refused call; the reported executor answer is what every recorded executor run answered, and nothing exactly when no run is recorded; when the executor ran, the 30 ms strobe of the address is recorded with the reported answer |
| Arbiter.SysI2c.ScanAddress | components/sys_i2c/sys_i2c.c:449-451 | one probe of the scan is recorded with its bus, its address and what the executor returned: nothing exactly when it never ran, and otherwise the answer of the strobe of that address recorded in its calls, which every recorded run gave; it succeeds exactly when every call was accepted and the executor answered ESP_OK or ESP_FAIL, and then the flag read back says whether the device acknowledged and the calls appended to the trace are exactly the 30 ms address strobe of that address on that bus; a failure after the executor ran deletes the link twice; no lock is left owned |
| Arbiter.SysI2c.ScanBus | components/sys_i2c/sys_i2c.c:440-457 | one bus's scan probes addresses 0x00..0x7F in order, stops at the first failed probe, and counts the acknowledgements; the trace grows by exactly the probes' calls, in order, each successful one being the address strobe of its target |
| Arbiter.SysI2c.TransactionAccepted | components/sys_i2c/sys_i2c.c:264-287 | every call of a transaction that ran to its give was accepted, and none deleted the link twice |
| Arbiter.SysI2c.ProbeOutcome | components/sys_i2c/sys_i2c.c:384-403 | a recorded probe succeeded exactly when none of its calls was refused and its executor ran and answered ESP_OK or ESP_FAIL |
| Arbiter.SysI2c.FailedProbeStrobedNothing | components/sys_i2c/sys_i2c.c:384-403 | a probe recorded as failed had a call refused, or its executor ran and answered neither ESP_OK nor ESP_FAIL; it made neither successful strobe of its address, so the scan reports a failure only when sys_i2c_probe failed |
| Arbiter.SysI2c.StopWasRefused | components/sys_i2c/sys_i2c.c:449-450 | the probe a scan stopped at names a bus of the table and a valid address, had a call refused or an executor answer other than ESP_OK and ESP_FAIL, and made neither successful strobe of that address |
| Arbiter.SysI2c.ProbeRecorded | components/sys_i2c/sys_i2c.c:449-451 | appending one probe's calls to the trace of the earlier probes is the trace of the probes with that one added |
| Arbiter.SysI2c.BusRecorded | components/sys_i2c/sys_i2c.c:422-457 | appending one bus's probe calls to the trace of the earlier buses is the trace of all their probes, in scan order |
| Arbiter.SysI2c.ScanNextBus | components/sys_i2c/sys_i2c.c:422-459 | scanning the next bus either extends the scanned buses by one or ends the whole scan with false at a failed probe, and the trace grows by exactly that bus's probe calls |
| Arbiter.SysI2c.ScanPrint | components/sys_i2c/sys_i2c.c:413-467 | the scan probes every target of every bus in order and returns true with the count of acknowledgements, or stops at the first failed probe with false; the trace grows by exactly the probes' calls, in order, each successful one being the address strobe of its target |

## Left out

- The `printf` output of the scan (sys_i2c.c:418-460) is presentation. Only the probe results and the count are modelled.
- The trace macros (components/include/sys_trace_macros.h) and main/app_main.c are not part of this model. app_config.c and bsp_config.c appear only as the default configuration of `RuntimeTable.DefaultConfigValid`.
- Concurrency between tasks is not modelled. Each call runs alone, and the lock discipline is stated on the sequential call record.
- The ESP-IDF driver, GPIO and FreeRTOS calls return arbitrary results. What they do inside, and what the hardware does, is not modelled.
- `pdMS_TO_TICKS` is not modelled. The timeouts are kept in milliseconds (1000 and 30).
- Builds with `NDEBUG` are not modelled. Every C `assert` is an abort outcome, so the check at sys_i2c.c:106 is unreachable.
- Negative `i2c_port_t` values are not modelled. Ports are natural numbers.
- The `uint8_t` and `size_t` widths of the arguments are not modelled. Ids, addresses and sizes are unbounded naturals, checked as the source checks them. The register is a byte.
- `GPIO_IS_VALID_OUTPUT_GPIO` and `BIT64` are chip-specific. The output-capable pins are the constant set `outputPins`.
- The driver is never uninstalled (sys_i2c.c:122), so no state records installed drivers.
- Arbiter.SysI2c.Read: it also requires `!linkLive`, because the command handle is a local in C while the model keeps one link field. Write, Probe, ScanAddress, ScanBus and ScanPrint require the same.
