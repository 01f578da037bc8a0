/**
 * The SYS_I2C component: one RAM runtime table built from the two FLASH
 * configuration tables, one mutex per hardware controller (port), and the
 * lock-protected, pin-swapped transactions (read, write, probe) and bus scan
 * that use them. Each logical bus (sys_i2c_id) owns a pair of GPIO pins;
 * buses share a controller through the GPIO matrix, so a transaction routes
 * its bus's pins to the controller, runs, and parks the pins again.
 *
 * The calls into ESP-IDF and FreeRTOS are the methods of the section
 * "Dependencies": each returns an arbitrary result and appends what it was
 * asked and what it answered to the ghost `trace`.
 */
module Arbiter {
  import opened I2cTypes
  import opened I2cCommands
  import opened RuntimeTable
  import opened EventTrace
  import opened ScanReport

  /** What a pin is connected to in the GPIO matrix. */
  datatype PinMode = RoutedTo(port: nat) | OpenDrainIdle

  /** The C `assert` that stopped start-up. */
  datatype AbortReason =
    | BadBoardId                        // bsp_id is not a board of the pin table
    | BadBus(id: nat, err: ConfigError) // the first bus whose entry fails a check
    | NoMutex(port: nat)                // xSemaphoreCreateMutex returned NULL

  /** How sys_i2c_runtime_init ends: true, false (no buses), or an abort. */
  datatype BuildOutcome = Built | NoBuses | BuildAbort(reason: AbortReason)

  /** How sys_i2c_init_all ends: true, false, or an abort. */
  datatype InitOutcome = InitPass | InitFail | InitAbort(reason: AbortReason)

  /** The flag (done_0 or done_1) that marks port `p` as set up. */
  function Done(p: nat, done0: bool, done1: bool): bool {
    if p == 0 then done0 else done1
  }

  /** The GPIO matrix after i2c_param_config routes a bus's pins to its port. */
  function AttachedPins(m: map<int, PinMode>, u: RuntimeUnit): map<int, PinMode> {
    m[u.sda := RoutedTo(u.port)][u.scl := RoutedTo(u.port)]
  }

  /** The GPIO matrix after both of a bus's pins are parked. */
  function DetachedPins(m: map<int, PinMode>, u: RuntimeUnit): map<int, PinMode> {
    m[u.scl := OpenDrainIdle][u.sda := OpenDrainIdle]
  }

  /**
   * Routing a bus's pins to its port and parking them again leaves both
   * parked and every other pin as it was.
   */
  lemma SwapRestores(m: map<int, PinMode>, u: RuntimeUnit)
    ensures DetachedPins(AttachedPins(m, u), u) == DetachedPins(m, u)
    ensures forall q | q in m && q != u.scl && q != u.sda :: DetachedPins(m, u)[q] == m[q]
    ensures DetachedPins(m, u)[u.scl] == OpenDrainIdle && DetachedPins(m, u)[u.sda] == OpenDrainIdle
  {
  }

  /** The caller's `bool found_flag` that sys_i2c_probe writes through a pointer. */
  class FlagCell {
    var value: bool

    constructor ()
      ensures !value
    {
      value := false;
    }
  }

  class SysI2c {
    /** SYS_I2C_ID_CNT: the number of logical buses; ids are uint8_t. */
    const busCount: nat
    /** BSP_I2C_config: one pin table per board. */
    const boards: seq<BoardPins>
    /** APP_config.bsp_id: the board this firmware runs on. */
    const bspId: nat
    /** SYS_I2C_config: port per bus and clock per port. */
    const config: SysConfig
    /** The pins for which GPIO_IS_VALID_OUTPUT_GPIO holds. */
    const outputPins: set<int>
    /** SYS_I2C_PULL_UP_ENABLE. */
    const pullUp: bool
    /** SYS_I2C_CLK_FLAGS_ENABLE. */
    const clkFlagsEnable: bool

    /** SYS_I2C_runtime.unit, indexed by sys_i2c_id. */
    var units: seq<RuntimeUnit>
    /** SYS_I2C_runtime.port[p].lock is a live mutex. */
    var lockLive: seq<bool>
    /** GPIO matrix state of the pins the component has touched. */
    var pins: map<int, PinMode>
    /** The command link being composed, and whether its handle is live. */
    var link: seq<Cmd>
    var linkLive: bool
    /** Every call into a dependency, in order. */
    ghost var trace: seq<Event>

    /** The array sizes of the C declarations. */
    ghost predicate Shaped()
      reads this`units, this`lockLive
    {
      && busCount < 256
      && TablesShaped(busCount, boards, config)
      && |units| == busCount
      && |lockLive| == PORT_COUNT
    }

    /** After a successful start-up: every entry is valid and its port has a live lock. */
    ghost predicate Ready()
      reads this`units, this`lockLive
    {
      && Shaped()
      && forall id | 0 <= id < busCount ::
           UnitValid(units[id], outputPins, clkFlagsEnable) && lockLive[units[id].port]
    }

    /** The selected board passes every check of the builder. */
    ghost predicate BoardAccepted() {
      && busCount > 0
      && bspId < |boards|
      && TablesShaped(busCount, boards, config)
      && BoardValid(busCount, boards[bspId], config, outputPins, clkFlagsEnable)
    }

    /** The runtime table the builder produces from an accepted board. */
    ghost function BuiltTable(): (t: seq<RuntimeUnit>)
      requires BoardAccepted()
      ensures |t| == busCount
      ensures forall id | 0 <= id < busCount :: UnitValid(t[id], outputPins, clkFlagsEnable)
    {
      ValidBoardTable(busCount, boards[bspId], config, outputPins, clkFlagsEnable);
      MergedTable(busCount, boards[bspId], config)
    }

    /** `reason` is the first assertion of the builder that the configuration violates. */
    ghost predicate BuilderRejects(reason: AbortReason) {
      && busCount > 0
      && TablesShaped(busCount, boards, config)
      && match reason
         case BadBoardId => bspId >= |boards|
         case BadBus(id, err) =>
           && bspId < |boards| && id < busCount
           && BusError(boards[bspId], config, id, outputPins, clkFlagsEnable) == Some(err)
           && forall j | 0 <= j < id :: BusError(boards[bspId], config, j, outputPins, clkFlagsEnable) == None
         case NoMutex(_) => false
    }

    /** The i2c_config_t built for a bus: clock flags are passed only when the feature is enabled. */
    function Params(u: RuntimeUnit): PortParams {
      PortParams(u.sda, u.scl, u.clkSpeed, if clkFlagsEnable then u.clkFlags else 0, pullUp)
    }

    /** The set-up calls made for port `p` by a start-up that succeeds: once, with the first bus on that port. */
    ghost function SetupFor(p: nat): seq<Event>
      reads this`units
    {
      var i := FirstOn(units, p);
      if i < |units| then [ParamConfig(p, Params(units[i]), true), DriverInstall(p, true), MutexCreate(p, true)]
      else []
    }

    /**
     * The set-up calls of port `p` left by a start-up that fails: none, a
     * rejected configuration, a failed driver install, or a complete set-up
     * whose lock was deleted again; always with the first bus on the port.
     */
    ghost predicate RolledBack(s: seq<Event>, p: nat)
      reads this`units
    {
      var i := FirstOn(units, p);
      || s == []
      || (i < |units| &&
          var c := Params(units[i]);
          || s == [ParamConfig(p, c, false)]
          || s == [ParamConfig(p, c, true), DriverInstall(p, false)]
          || s == [ParamConfig(p, c, true), DriverInstall(p, true), MutexCreate(p, true), MutexDelete(p)])
    }

    /** Each port was set up exactly as SetupFor says: once, with its first bus, or not at all when no bus uses it. */
    ghost predicate SetUpOnce(log: seq<Event>)
      reads this`units
    {
      && Select(log, PortSetup(0)) == SetupFor(0)
      && Select(log, PortSetup(1)) == SetupFor(1)
    }

    /** After the rollback, port `p`'s set-up calls are rolled back and its lock slot is live only if it was at entry and was not deleted. */
    ghost predicate PortRolledBack(p: nat, log: seq<Event>, locks: seq<bool>, entryLocks: seq<bool>)
      requires p < |locks| && p < |entryLocks|
      reads this`units
    {
      && RolledBack(Select(log, PortSetup(p)), p)
      && locks[p] == (entryLocks[p] && |Select(log, PortSetup(p))| < 4)
    }

    /**
     * A start-up that failed: a configuration or driver install was
     * refused, every port's set-up calls are rolled back, and exactly the
     * locks created by this start-up are deleted (the other slots are as
     * they were in `entryLocks`).
     */
    ghost predicate FailedAndRolledBack(log: seq<Event>, entryLocks: seq<bool>)
      reads this`units, this`lockLive
    {
      && |lockLive| == PORT_COUNT && |entryLocks| == PORT_COUNT
      && (exists e | e in log :: (e.ParamConfig? || e.DriverInstall?) && !e.ok)
      && PortRolledBack(0, log, lockLive, entryLocks)
      && PortRolledBack(1, log, lockLive, entryLocks)
    }

    /** What gpio_config calls of a detach may record: both pins parked, or a stop at the first failure. */
    ghost predicate DetachLog(log: seq<Event>, u: RuntimeUnit, ok: bool) {
      if ok then log == [PinIdle(u.scl, pullUp, true), PinIdle(u.sda, pullUp, true)]
      else log == [PinIdle(u.scl, pullUp, false)] || log == [PinIdle(u.scl, pullUp, true), PinIdle(u.sda, pullUp, false)]
    }

    /** The bus's pins are parked (open-drain, no controller), unless one of the gpio_config calls in `log` was refused. */
    ghost predicate ParkedUnlessRefused(u: RuntimeUnit, log: seq<Event>)
      reads this`pins
    {
      || (u.scl in pins && pins[u.scl] == OpenDrainIdle && u.sda in pins && pins[u.sda] == OpenDrainIdle)
      || PinIdle(u.scl, pullUp, false) in log
      || PinIdle(u.sda, pullUp, false) in log
    }

    /**
     * What a transaction whose arguments fail the checks records: nothing
     * for a bus id out of range; otherwise only the detach of that bus's
     * pins, made without taking the lock.
     */
    ghost predicate Rejected(id: nat, log: seq<Event>)
      reads this`units
    {
      if id < |units| then DetachLog(log, units[id], true) || DetachLog(log, units[id], false)
      else log == []
    }

    /** The calls before the executor runs, when each one succeeds: attach, link creation, one append per piece. */
    ghost function Prepared(u: RuntimeUnit, chunks: seq<seq<Cmd>>): seq<Event> {
      [ParamConfig(u.port, Params(u), true), LinkCreate(true)] + Appends(chunks)
    }

    /** The calls after the executor ran, when each one succeeds: link deletion, detach of both pins, give. */
    ghost function Finished(u: RuntimeUnit): seq<Event> {
      [LinkDelete(true), PinIdle(u.scl, pullUp, true), PinIdle(u.sda, pullUp, true), Give(u.port, true)]
    }

    /** The calls a transaction makes while it holds the lock, from the attach to the give, when each one succeeds. */
    ghost function Locked(u: RuntimeUnit, chunks: seq<seq<Cmd>>, exec: Event): seq<Event> {
      Prepared(u, chunks) + [exec] + Finished(u)
    }

    /** The calls of a transaction that succeeds, from the take of the lock to its give. */
    ghost function Transaction(u: RuntimeUnit, chunks: seq<seq<Cmd>>, exec: Event): seq<Event> {
      [Take(u.port, true)] + Locked(u, chunks, exec)
    }

    /** The zero-initialised global state at boot. */
    constructor (busCount: nat, boards: seq<BoardPins>, bspId: nat, config: SysConfig,
                 outputPins: set<int>, pullUp: bool, clkFlagsEnable: bool)
      requires busCount < 256 && TablesShaped(busCount, boards, config)
      ensures this.busCount == busCount && this.boards == boards && this.bspId == bspId
      ensures this.config == config && this.outputPins == outputPins
      ensures this.pullUp == pullUp && this.clkFlagsEnable == clkFlagsEnable
      ensures Shaped()
      ensures units == seq(busCount, _ => ZERO_UNIT) && lockLive == [false, false]
      ensures pins == map[] && link == [] && !linkLive && trace == []
    {
      this.busCount := busCount;
      this.boards := boards;
      this.bspId := bspId;
      this.config := config;
      this.outputPins := outputPins;
      this.pullUp := pullUp;
      this.clkFlagsEnable := clkFlagsEnable;
      units := seq(busCount, _ => ZERO_UNIT);
      lockLive := [false, false];
      pins := map[];
      link := [];
      linkLive := false;
      trace := [];
    }

    // -------------------------------------------------------------------
    // Dependencies: ESP-IDF driver and GPIO calls, FreeRTOS mutexes.

    /** i2c_param_config: on success the controller takes the bus's clock and the pins are routed to it. */
    method I2cParamConfig(port: nat, u: RuntimeUnit) returns (ok: bool)
      modifies this`trace, this`pins
      ensures trace == old(trace) + [ParamConfig(port, Params(u), ok)]
      ensures pins == if ok then old(pins)[u.sda := RoutedTo(port)][u.scl := RoutedTo(port)] else old(pins)
    {
      ok := *;
      trace := trace + [ParamConfig(port, Params(u), ok)];
      if ok {
        pins := pins[u.sda := RoutedTo(port)][u.scl := RoutedTo(port)];
      }
    }

    /** i2c_driver_install in master mode. */
    method I2cDriverInstall(port: nat) returns (ok: bool)
      modifies this`trace
      ensures trace == old(trace) + [DriverInstall(port, ok)]
    {
      ok := *;
      trace := trace + [DriverInstall(port, ok)];
    }

    /** xSemaphoreCreateMutex stored into the port's lock slot; NULL on failure. */
    method SemaphoreCreate(port: nat) returns (ok: bool)
      requires port < |lockLive|
      modifies this`trace, this`lockLive
      ensures trace == old(trace) + [MutexCreate(port, ok)]
      ensures lockLive == old(lockLive)[port := ok]
    {
      ok := *;
      trace := trace + [MutexCreate(port, ok)];
      lockLive := lockLive[port := ok];
    }

    /** vSemaphoreDelete of the port's lock. */
    method SemaphoreDelete(port: nat)
      requires port < |lockLive|
      modifies this`trace, this`lockLive
      ensures trace == old(trace) + [MutexDelete(port)]
      ensures lockLive == old(lockLive)[port := false]
    {
      trace := trace + [MutexDelete(port)];
      lockLive := lockLive[port := false];
    }

    /** xSemaphoreTake with portMAX_DELAY. */
    method SemaphoreTake(port: nat) returns (ok: bool)
      modifies this`trace
      ensures trace == old(trace) + [Take(port, ok)]
    {
      ok := *;
      trace := trace + [Take(port, ok)];
    }

    /** xSemaphoreGive. */
    method SemaphoreGive(port: nat) returns (ok: bool)
      modifies this`trace
      ensures trace == old(trace) + [Give(port, ok)]
    {
      ok := *;
      trace := trace + [Give(port, ok)];
    }

    /** gpio_config of one pin as an open-drain input/output with no controller attached. */
    method GpioIdle(pin: int) returns (ok: bool)
      modifies this`trace, this`pins
      ensures trace == old(trace) + [PinIdle(pin, pullUp, ok)]
      ensures pins == if ok then old(pins)[pin := OpenDrainIdle] else old(pins)
    {
      ok := *;
      trace := trace + [PinIdle(pin, pullUp, ok)];
      if ok {
        pins := pins[pin := OpenDrainIdle];
      }
    }

    /** i2c_cmd_link_create: a fresh empty link, or NULL. */
    method CmdLinkCreate() returns (ok: bool)
      modifies this`trace, this`link, this`linkLive
      ensures trace == old(trace) + [LinkCreate(ok)]
      ensures link == [] && linkLive == ok
    {
      ok := *;
      trace := trace + [LinkCreate(ok)];
      link := [];
      linkLive := ok;
    }

    /** One i2c_master_start / _write_byte / _write / _read / _read_byte / _stop call. */
    method CmdAppend(cmds: seq<Cmd>) returns (ok: bool)
      requires linkLive
      modifies this`trace, this`link
      ensures trace == old(trace) + [LinkAppend(cmds, ok)]
      ensures link == if ok then old(link) + cmds else old(link)
    {
      ok := *;
      trace := trace + [LinkAppend(cmds, ok)];
      if ok {
        link := link + cmds;
      }
    }

    /** i2c_cmd_link_delete; the event records whether the handle was still live. */
    method CmdLinkDelete()
      modifies this`trace, this`linkLive
      ensures trace == old(trace) + [LinkDelete(old(linkLive))]
      ensures !linkLive
    {
      trace := trace + [LinkDelete(linkLive)];
      linkLive := false;
    }

    /** i2c_master_cmd_begin of a link that receives nothing. */
    method CmdBegin(port: nat, timeoutMs: nat) returns (r: ExecResult)
      modifies this`trace
      ensures trace == old(trace) + [Execute(port, link, timeoutMs, r, [])]
    {
      r := *;
      trace := trace + [Execute(port, link, timeoutMs, r, [])];
    }

    /** i2c_master_cmd_begin of a read link: the controller stores the received bytes into buf[..size]. */
    method CmdBeginRead(port: nat, timeoutMs: nat, buf: array<Byte>, size: nat) returns (r: ExecResult)
      requires size <= buf.Length
      modifies this`trace, buf
      ensures trace == old(trace) + [Execute(port, link, timeoutMs, r, buf[..size])]
      ensures buf[size..] == old(buf[size..])
    {
      r := *;
      var zeros: seq<Byte> := seq(size, _ => 0);
      assert |zeros| == size;
      var received: seq<Byte> :| |received| == size;
      var i := 0;
      while i < size
        invariant 0 <= i <= size
        invariant buf[..i] == received[..i]
        invariant buf[size..] == old(buf[size..])
        invariant trace == old(trace)
      {
        buf[i] := received[i];
        i := i + 1;
      }
      trace := trace + [Execute(port, link, timeoutMs, r, buf[..size])];
    }

    // -------------------------------------------------------------------
    // Start-up

    /**
     * sys_i2c_runtime_init: copies and checks, bus by bus, the merged entry
     * of the runtime table. False when there are no buses; each failed
     * check is an abort.
     */
    method RuntimeInit() returns (r: BuildOutcome)
      requires Shaped()
      modifies this`units
      ensures Shaped()
      ensures r == NoBuses <==> busCount == 0
      ensures r == Built <==> BoardAccepted()
      ensures r == Built ==> units == BuiltTable()
      ensures r.BuildAbort? ==> BuilderRejects(r.reason)
    {
      if busCount == 0 {
        return NoBuses;
      }
      if !(bspId < |boards|) {
        return BuildAbort(BadBoardId);
      }
      var board := boards[bspId];
      var id := 0;
      while id < busCount
        invariant 0 <= id <= busCount && Shaped()
        invariant forall j | 0 <= j < id ::
          && BusError(board, config, j, outputPins, clkFlagsEnable) == None
          && config.unitPort[j] < PORT_COUNT
          && units[j] == MergeUnit(board, config, j)
      {
        var scl := board.unit[id].scl;
        var sda := board.unit[id].sda;
        var port := config.unitPort[id];
        units := units[id := units[id].(scl := scl, sda := sda, port := port)];
        if !(port < PORT_COUNT) {
          assert BusError(board, config, id, outputPins, clkFlagsEnable) == Some(InvalidController);
          return BuildAbort(BadBus(id, InvalidController));
        }
        var clkSpeed := config.port[port].clkSpeed;
        var clkFlags := config.port[port].clkFlags;
        units := units[id := units[id].(clkSpeed := clkSpeed, clkFlags := clkFlags)];
        if scl == GPIO_NUM_NC || sda == GPIO_NUM_NC || scl == sda
          || scl !in outputPins || sda !in outputPins {
          assert BusError(board, config, id, outputPins, clkFlagsEnable) == Some(InvalidPin);
          return BuildAbort(BadBus(id, InvalidPin));
        }
        if !(0 < clkSpeed <= CLOCK_MAX) {
          assert BusError(board, config, id, outputPins, clkFlagsEnable) == Some(ClockOutOfRange);
          return BuildAbort(BadBus(id, ClockOutOfRange));
        }
        if clkFlagsEnable && clkFlags > CLK_FLAGS_MAX {
          assert BusError(board, config, id, outputPins, clkFlagsEnable) == Some(InvalidFlags);
          return BuildAbort(BadBus(id, InvalidFlags));
        }
        id := id + 1;
      }
      assert units == MergedTable(busCount, board, config);
      return Built;
    }

    /**
     * Port `p` when a driver call of start-up has failed: a marked port was
     * set up completely with its first bus; an unmarked one holds at most
     * the failed calls, and its lock slot is as it was at entry.
     */
    ghost predicate PortBeforeRollBack(p: nat, done: bool, log: seq<Event>, locks: seq<bool>, entryLocks: seq<bool>)
      requires p < |locks| && p < |entryLocks|
      reads this`units
    {
      if done then
        && FirstOn(units, p) < |units|
        && Select(log, PortSetup(p)) == SetupFor(p)
      else
        && locks[p] == entryLocks[p]
        && RolledBack(Select(log, PortSetup(p)), p)
        && |Select(log, PortSetup(p))| < 3
    }

    /**
     * The `fail:` label of sys_i2c_init_all: deletes the lock of each port
     * marked set up. `pre` is what start-up recorded before, and
     * `entryLocks` the lock slots when start-up began.
     */
    method RollBack(done0: bool, done1: bool, ghost pre: seq<Event>, ghost entryLocks: seq<bool>)
      returns (ghost log: seq<Event>)
      requires |lockLive| == PORT_COUNT && |entryLocks| == PORT_COUNT
      requires PortBeforeRollBack(0, done0, pre, lockLive, entryLocks)
      requires PortBeforeRollBack(1, done1, pre, lockLive, entryLocks)
      modifies this`trace, this`lockLive
      ensures trace == old(trace) + log && |lockLive| == PORT_COUNT
      ensures PortRolledBack(0, pre + log, lockLive, entryLocks)
      ensures PortRolledBack(1, pre + log, lockLive, entryLocks)
    {
      ghost var locks := lockLive;
      ghost var log0 := DeleteIfSetUp(0, done0);
      ghost var log1 := DeleteIfSetUp(1, done1);
      AppendAssoc(old(trace), log0, log1);
      log := log0 + log1;
      DeletesProjection(pre, done0, done1);
      RollBackPort(0, done0, pre, pre + log, locks, lockLive, entryLocks);
      RollBackPort(1, done1, pre, pre + log, locks, lockLive, entryLocks);
    }

    /** One `if (done) vSemaphoreDelete(...)` of the `fail:` label. */
    method DeleteIfSetUp(port: nat, done: bool) returns (ghost log: seq<Event>)
      requires port < |lockLive|
      modifies this`trace, this`lockLive
      ensures log == (if done then [MutexDelete(port)] else [])
      ensures trace == old(trace) + log
      ensures lockLive == if done then old(lockLive)[port := false] else old(lockLive)
    {
      log := [];
      if done {
        SemaphoreDelete(port);
        log := [MutexDelete(port)];
      }
    }

    /** Deleting port `p`'s lock when it was marked set up leaves its set-up calls rolled back. */
    lemma RollBackPort(p: nat, done: bool, pre: seq<Event>, post: seq<Event>,
                       locks: seq<bool>, newLocks: seq<bool>, entryLocks: seq<bool>)
      requires p < PORT_COUNT && |locks| == PORT_COUNT && |newLocks| == PORT_COUNT && |entryLocks| == PORT_COUNT
      requires PortBeforeRollBack(p, done, pre, locks, entryLocks)
      requires Select(post, PortSetup(p)) == Select(pre, PortSetup(p)) + (if done then [MutexDelete(p)] else [])
      requires newLocks[p] == (!done && locks[p])
      ensures PortRolledBack(p, post, newLocks, entryLocks)
    {
    }

    /**
     * One port's set-up in sys_i2c_init_all, with the entry of the bus that
     * reaches it first: configure the controller, install the driver, create
     * the lock, stopping at the first driver call that fails.
     */
    method SetUpPort(port: nat, u: RuntimeUnit) returns (ok: bool, created: bool, ghost log: seq<Event>)
      requires port < PORT_COUNT && |lockLive| == PORT_COUNT
      modifies this`trace, this`pins, this`lockLive
      ensures trace == old(trace) + log
      ensures !ok ==> !created && lockLive == old(lockLive)
      ensures !ok ==> (log == [ParamConfig(port, Params(u), false)]
                    || log == [ParamConfig(port, Params(u), true), DriverInstall(port, false)])
      ensures ok ==> log == [ParamConfig(port, Params(u), true), DriverInstall(port, true), MutexCreate(port, created)]
      ensures ok ==> lockLive == old(lockLive)[port := created]
    {
      created := false;
      ok := I2cParamConfig(port, u);
      log := [ParamConfig(port, Params(u), ok)];
      if !ok {
        return;
      }
      ok := I2cDriverInstall(port);
      log := log + [DriverInstall(port, ok)];
      if !ok {
        return;
      }
      created := SemaphoreCreate(port);
      log := log + [MutexCreate(port, created)];
    }

    /**
     * sys_i2c_init_all: builds the runtime table, then sets up the ports
     * its buses use.
     */
    method InitAll() returns (r: InitOutcome, ghost log: seq<Event>)
      requires Shaped()
      modifies this`units, this`lockLive, this`pins, this`trace
      ensures Shaped() && trace == old(trace) + log
      ensures busCount == 0 ==> r == InitFail && log == []
      ensures r.InitAbort? && !r.reason.NoMutex? ==> BuilderRejects(r.reason) && log == []
      ensures r.InitAbort? && r.reason.NoMutex? ==>
        && BoardAccepted() && r.reason.port < PORT_COUNT
        && log != [] && log[|log| - 1] == MutexCreate(r.reason.port, false)
      ensures r == InitPass || (r == InitFail && busCount > 0) ==> BoardAccepted() && units == BuiltTable()
      ensures r == InitPass ==> Ready() && SetUpOnce(log)
      ensures r == InitFail && busCount > 0 ==> FailedAndRolledBack(log, old(lockLive))
    {
      var built := RuntimeInit();
      if built == NoBuses {
        return InitFail, [];
      }
      if built.BuildAbort? {
        return InitAbort(built.reason), [];
      }
      r, log := SetUpPorts();
    }

    /**
     * Port `p` in the loop of sys_i2c_init_all after the buses before `id`:
     * a marked port was set up once, with its first bus, and holds a live
     * lock; an unmarked one was not touched and its lock slot is as it was
     * at entry.
     */
    ghost predicate PortSoFar(p: nat, done: bool, id: nat, log: seq<Event>, locks: seq<bool>, entryLocks: seq<bool>)
      requires p < |locks| && p < |entryLocks|
      reads this`units
    {
      if done then
        && Select(log, PortSetup(p)) == SetupFor(p)
        && locks[p]
        && FirstOn(units, p) < id
      else
        && Select(log, PortSetup(p)) == []
        && locks[p] == entryLocks[p]
    }

    /** What the loop of sys_i2c_init_all has done after the buses before `id`: every such bus's port is marked set up. */
    ghost predicate SetUpSoFar(id: nat, done0: bool, done1: bool, log: seq<Event>, locks: seq<bool>, entryLocks: seq<bool>)
      reads this`units
    {
      && |units| == busCount && id <= busCount && |locks| == PORT_COUNT && |entryLocks| == PORT_COUNT
      && (forall j | 0 <= j < id :: Done(units[j].port, done0, done1))
      && PortSoFar(0, done0, id, log, locks, entryLocks)
      && PortSoFar(1, done1, id, log, locks, entryLocks)
    }

    /** Where start-up stands when setting up the port of bus `id` failed: what the rollback starts from. */
    lemma FailedSetUpState(id: nat, done0: bool, done1: bool, pre: seq<Event>, plog: seq<Event>, entryLocks: seq<bool>)
      requires SetUpSoFar(id, done0, done1, pre, lockLive, entryLocks) && id < busCount
      requires units[id].port < PORT_COUNT && !Done(units[id].port, done0, done1)
      requires FirstOn(units, units[id].port) == id
      requires var u := units[id];
        || plog == [ParamConfig(u.port, Params(u), false)]
        || plog == [ParamConfig(u.port, Params(u), true), DriverInstall(u.port, false)]
      ensures PortBeforeRollBack(0, done0, pre + plog, lockLive, entryLocks)
      ensures PortBeforeRollBack(1, done1, pre + plog, lockLive, entryLocks)
    {
      SetUpOfPort(pre, plog, units[id].port);
    }

    /** Setting up the port of bus `id` completely extends what the loop has done to bus `id + 1`. */
    lemma SetUpStep(id: nat, done0: bool, done1: bool, pre: seq<Event>, plog: seq<Event>,
                    locks: seq<bool>, entryLocks: seq<bool>)
      requires SetUpSoFar(id, done0, done1, pre, locks, entryLocks) && id < busCount
      requires units[id].port < PORT_COUNT && !Done(units[id].port, done0, done1)
      requires FirstOn(units, units[id].port) == id
      requires var u := units[id];
        plog == [ParamConfig(u.port, Params(u), true), DriverInstall(u.port, true), MutexCreate(u.port, true)]
      ensures var port := units[id].port;
        SetUpSoFar(id + 1, done0 || port == 0, done1 || port == 1, pre + plog, locks[port := true], entryLocks)
    {
      var port := units[id].port;
      SetUpOfPort(pre, plog, port);
      PortStep(0, done0, id, pre, plog, locks, entryLocks);
      PortStep(1, done1, id, pre, plog, locks, entryLocks);
      MarkStep(id, done0, done1);
    }

    /** Marking the port of bus `id` keeps every earlier bus's port marked and marks bus `id`'s. */
    lemma MarkStep(id: nat, done0: bool, done1: bool)
      requires id < |units| && units[id].port < PORT_COUNT && forall j | 0 <= j < id :: Done(units[j].port, done0, done1)
      ensures var port := units[id].port;
        forall j | 0 <= j < id + 1 :: Done(units[j].port, done0 || port == 0, done1 || port == 1)
    {
      var port := units[id].port;
      forall j | 0 <= j < id + 1 ensures Done(units[j].port, done0 || port == 0, done1 || port == 1) {
        if j < id {
          assert Done(units[j].port, done0, done1);
        }
      }
    }

    /** Port `p` after the set-up of bus `id`'s port: marked and set up if it is that port, as it was otherwise. */
    lemma PortStep(p: nat, done: bool, id: nat, pre: seq<Event>, plog: seq<Event>, locks: seq<bool>, entryLocks: seq<bool>)
      requires p < PORT_COUNT && |locks| == PORT_COUNT && |entryLocks| == PORT_COUNT && id < |units|
      requires PortSoFar(p, done, id, pre, locks, entryLocks)
      requires var port := units[id].port;
        && port < PORT_COUNT
        && (p == port ==> !done && FirstOn(units, port) == id)
        && Select(pre + plog, PortSetup(p)) == Select(pre, PortSetup(p)) + (if p == port then plog else [])
        && (p == port ==> plog == [ParamConfig(port, Params(units[id]), true), DriverInstall(port, true), MutexCreate(port, true)])
      ensures var port := units[id].port;
        PortSoFar(p, done || p == port, id + 1, pre + plog, locks[port := true], entryLocks)
    {
      if p != units[id].port {
        assert Select(pre + plog, PortSetup(p)) == Select(pre, PortSetup(p));
      } else {
        assert Select(pre + plog, PortSetup(p)) == [] + plog;
      }
    }

    /** A bus whose port is already set up is skipped. */
    lemma SkipStep(id: nat, done0: bool, done1: bool, log: seq<Event>, locks: seq<bool>, entryLocks: seq<bool>)
      requires SetUpSoFar(id, done0, done1, log, locks, entryLocks) && id < busCount
      requires Done(units[id].port, done0, done1)
      ensures SetUpSoFar(id + 1, done0, done1, log, locks, entryLocks)
    {
    }

    /**
     * The `goto fail` after the set-up of bus `id`'s port was refused:
     * `plog` holds the refused call, and the rollback follows it.
     */
    method SetUpFailed(id: nat, done0: bool, done1: bool, ghost pre: seq<Event>, ghost plog: seq<Event>,
                       ghost entryLocks: seq<bool>) returns (ghost dlog: seq<Event>)
      requires SetUpSoFar(id, done0, done1, pre, lockLive, entryLocks) && id < busCount
      requires units[id].port < PORT_COUNT && !Done(units[id].port, done0, done1)
      requires FirstOn(units, units[id].port) == id
      requires var u := units[id];
        || plog == [ParamConfig(u.port, Params(u), false)]
        || plog == [ParamConfig(u.port, Params(u), true), DriverInstall(u.port, false)]
      modifies this`trace, this`lockLive
      ensures trace == old(trace) + dlog
      ensures FailedAndRolledBack(pre + (plog + dlog), entryLocks)
    {
      FailedSetUpState(id, done0, done1, pre, plog, entryLocks);
      dlog := RollBack(done0, done1, pre + plog, entryLocks);
      AppendAssoc(pre, plog, dlog);
      assert plog[|plog| - 1] in pre + (plog + dlog);
    }

    /**
     * The body of the loop of sys_i2c_init_all for bus `id` whose port is
     * not yet set up: set the port up with this bus's entry; on a failed
     * driver call, roll back and stop with false; on a NULL lock, abort.
     */
    method SetUpBus(id: nat, done0: bool, done1: bool, ghost pre: seq<Event>, ghost entryLocks: seq<bool>)
      returns (stop: Option<InitOutcome>, ghost log: seq<Event>)
      requires SetUpSoFar(id, done0, done1, pre, lockLive, entryLocks) && Shaped() && id < busCount
      requires units[id].port < PORT_COUNT && !Done(units[id].port, done0, done1)
      modifies this`lockLive, this`pins, this`trace
      ensures trace == old(trace) + log && Shaped()
      ensures stop.None? ==>
        SetUpSoFar(id + 1, done0 || units[id].port == 0, done1 || units[id].port == 1, pre + log, lockLive, entryLocks)
      ensures stop.Some? ==> stop.value == InitFail || stop.value == InitAbort(NoMutex(units[id].port))
      ensures stop == Some(InitAbort(NoMutex(units[id].port))) ==>
        log != [] && log[|log| - 1] == MutexCreate(units[id].port, false)
      ensures stop == Some(InitFail) ==> FailedAndRolledBack(pre + log, entryLocks)
    {
      var port := units[id].port;
      assert FirstOn(units, port) == id by {
        var i := FirstOn(units, port);
        assert i <= id;
        assert units[i].port == port;
      }
      var ok, created, plog := SetUpPort(port, units[id]);
      log := plog;
      if !ok {
        var dlog := SetUpFailed(id, done0, done1, pre, plog, entryLocks);
        AppendAssoc(old(trace), plog, dlog);
        return Some(InitFail), plog + dlog;
      }
      if !created {
        return Some(InitAbort(NoMutex(port))), log;
      }
      SetUpStep(id, done0, done1, pre, plog, old(lockLive), entryLocks);
      return None, log;
    }

    /**
     * The loop of sys_i2c_init_all over the buses of an accepted board: sets
     * up each port once, with the first bus assigned to it, and stops early
     * once both ports are set up. When a driver call fails, the locks created
     * so far are deleted and the result is false.
     */
    method SetUpPorts() returns (r: InitOutcome, ghost log: seq<Event>)
      requires Shaped()
      requires forall id | 0 <= id < busCount :: UnitValid(units[id], outputPins, clkFlagsEnable)
      modifies this`lockLive, this`pins, this`trace
      ensures Shaped() && trace == old(trace) + log
      ensures r.InitAbort? ==>
        && r.reason.NoMutex? && r.reason.port < PORT_COUNT
        && log != [] && log[|log| - 1] == MutexCreate(r.reason.port, false)
      ensures r == InitPass ==> Ready() && SetUpOnce(log)
      ensures r == InitFail ==> FailedAndRolledBack(log, old(lockLive))
    {
      log := [];
      var done0, done1 := false, false;
      var id := 0;
      while id < busCount
        invariant SetUpSoFar(id, done0, done1, log, lockLive, old(lockLive)) && Shaped()
        invariant trace == old(trace) + log
      {
        if done0 && done1 {
          break;
        }
        var port := units[id].port;
        if port == 0 && done0 {
          SkipStep(id, done0, done1, log, lockLive, old(lockLive));
          id := id + 1;
          continue;
        }
        if port == 1 && done1 {
          SkipStep(id, done0, done1, log, lockLive, old(lockLive));
          id := id + 1;
          continue;
        }
        var stop, blog := SetUpBus(id, done0, done1, log, old(lockLive));
        AppendAssoc(old(trace), log, blog);
        log := log + blog;
        if stop.Some? {
          assert forall e | e in blog :: e in log;
          return stop.value, log;
        }
        // the switch on port_num: the port is 0 or 1, as the runtime table guarantees
        done0, done1 := done0 || port == 0, done1 || port == 1;
        id := id + 1;
      }
      // a port left unmarked is used by no bus
      assert !done0 ==> forall j | 0 <= j < |units| :: units[j].port != 0;
      assert !done1 ==> forall j | 0 <= j < |units| :: units[j].port != 1;
      return InitPass, log;
    }

    // -------------------------------------------------------------------
    // Pin swapping

    /**
     * sys_i2c_attach_pins: configures the bus's port with the bus's pins and
     * clock, which routes the pins to that controller.
     */
    method AttachPins(id: nat) returns (ok: bool, ghost log: seq<Event>)
      requires |units| == busCount
      modifies this`trace, this`pins
      ensures trace == old(trace) + log
      ensures id >= busCount ==> !ok && log == [] && pins == old(pins)
      ensures id < busCount ==> log == [ParamConfig(units[id].port, Params(units[id]), ok)]
      ensures ok ==> id < busCount && pins == AttachedPins(old(pins), units[id])
      ensures !ok ==> pins == old(pins)
      ensures Quiet(log)
    {
      if !(id < busCount) {
        return false, [];
      }
      ok := I2cParamConfig(units[id].port, units[id]);
      log := [ParamConfig(units[id].port, Params(units[id]), ok)];
    }

    /**
     * sys_i2c_detach_pins: parks the bus's SCL pin, then its SDA pin, as
     * open-drain GPIOs with no controller, stopping at the first refusal.
     */
    method DetachPins(id: nat) returns (ok: bool, ghost log: seq<Event>)
      requires |units| == busCount
      modifies this`trace, this`pins
      ensures trace == old(trace) + log
      ensures id >= busCount ==> !ok && log == [] && pins == old(pins)
      ensures id < busCount ==> DetachLog(log, units[id], ok) && ParkedUnlessRefused(units[id], log)
      ensures ok ==> id < busCount && pins == DetachedPins(old(pins), units[id])
      ensures !ok && id < busCount ==>
        pins == if |log| == 2 then old(pins)[units[id].scl := OpenDrainIdle] else old(pins)
      ensures Quiet(log)
    {
      if !(id < busCount) {
        return false, [];
      }
      var u := units[id];
      ok := GpioIdle(u.scl);
      log := [PinIdle(u.scl, pullUp, ok)];
      if !ok {
        return;
      }
      ok := GpioIdle(u.sda);
      log := log + [PinIdle(u.sda, pullUp, ok)];
    }

    // -------------------------------------------------------------------
    // Transactions

    /**
     * The `fail:` label of the transactions: detach the pins whatever the
     * earlier steps did, delete the command link when a handle was
     * obtained (`cmd`), give the lock when it was taken.
     */
    method Abandon(id: nat, cmd: bool, lockTaken: bool) returns (ghost log: seq<Event>)
      requires |units| == busCount && (lockTaken ==> id < busCount)
      modifies this`trace, this`pins, this`linkLive
      ensures trace == old(trace) + log
      ensures cmd ==> !linkLive
      ensures !cmd ==> linkLive == old(linkLive)
      ensures id < busCount ==> ParkedUnlessRefused(units[id], log)
      ensures LinkDelete(false) in log <==> cmd && !old(linkLive)
      ensures lockTaken ==> log != [] && log[|log| - 1].Give? && log[|log| - 1].port == units[id].port
      ensures !cmd && !lockTaken ==> Rejected(id, log)
      ensures Quiet(log)
      ensures id < busCount && AllAccepted(log) ==>
        log == [PinIdle(units[id].scl, pullUp, true), PinIdle(units[id].sda, pullUp, true)]
               + (if cmd then [LinkDelete(old(linkLive))] else [])
               + (if lockTaken then [Give(units[id].port, true)] else [])
    {
      var detached, dlog := DetachPins(id);
      log := dlog;
      if id < busCount && !detached {
        // the refused gpio_config call stays in the record
        assert !Accepted(log[|log| - 1]) && log[|log| - 1] in log;
      }
      if cmd {
        ghost var live := linkLive;
        CmdLinkDelete();
        log := log + [LinkDelete(live)];
      }
      if lockTaken {
        var port := units[id].port;
        var given := SemaphoreGive(port);
        log := log + [Give(port, given)];
        assert log[|log| - 1] in log;
      }
    }

    /**
     * The chain of i2c_master_* calls that composes a command list on the
     * live link, one call per piece, each checked and the chain abandoned at
     * the first refusal.
     */
    method AppendAll(chunks: seq<seq<Cmd>>) returns (ok: bool, ghost log: seq<Event>)
      requires linkLive
      modifies this`trace, this`link
      ensures trace == old(trace) + log
      ensures forall e | e in log :: e.LinkAppend?
      ensures ok <==> AllAccepted(log)
      ensures ok ==> log == Appends(chunks) && link == old(link) + Join(chunks)
    {
      log := [];
      var i := 0;
      while i < |chunks|
        invariant 0 <= i <= |chunks|
        invariant trace == old(trace) + log
        invariant log == Appends(chunks[..i]) && link == old(link) + Join(chunks[..i])
        invariant forall e | e in log :: e.LinkAppend? && e.ok
      {
        var appended := CmdAppend(chunks[i]);
        AppendAssoc(old(trace), log, [LinkAppend(chunks[i], appended)]);
        if !appended {
          log := log + [LinkAppend(chunks[i], false)];
          assert log[|log| - 1] in log;
          return false, log;
        }
        assert chunks[..i + 1][..i] == chunks[..i];
        log := log + [LinkAppend(chunks[i], true)];
        i := i + 1;
      }
      assert chunks[..i] == chunks;
      ok := true;
    }

    /**
     * The steps of a transaction before the executor runs: attach the bus's
     * pins, create the link, compose the pieces; stopping at the first
     * refusal. `cmd` says whether a link handle was obtained.
     */
    method Prepare(id: nat, chunks: seq<seq<Cmd>>) returns (ok: bool, cmd: bool, ghost log: seq<Event>)
      requires |units| == busCount && id < busCount && !linkLive
      modifies this`trace, this`pins, this`link, this`linkLive
      ensures trace == old(trace) + log && linkLive == cmd
      ensures ok <==> AllAccepted(log)
      ensures ok ==> cmd && log == Prepared(units[id], chunks) && link == Join(chunks)
      ensures forall e | e in log :: !e.LinkDelete?
      ensures Quiet(log)
      ensures ok ==> pins == AttachedPins(old(pins), units[id])
    {
      cmd := false;
      var attached, alog := AttachPins(id);
      log := alog;
      if !attached {
        assert log[0] in log;
        return false, cmd, log;
      }
      cmd := CmdLinkCreate();
      log := log + [LinkCreate(cmd)];
      if !cmd {
        assert log[1] in log;
        return false, cmd, log;
      }
      ghost var clog: seq<Event>;
      ok, clog := AppendAll(chunks);
      AppendAssoc(old(trace), log, clog);
      log := log + clog;
    }

    /**
     * The steps of a transaction after the executor ran: delete the link,
     * detach the bus's pins, give the lock; stopping at the first refusal.
     */
    method Finish(id: nat) returns (ok: bool, ghost log: seq<Event>)
      requires |units| == busCount && id < busCount && linkLive
      modifies this`trace, this`pins, this`linkLive
      ensures trace == old(trace) + log && !linkLive
      ensures ok <==> AllAccepted(log)
      ensures ok ==> log == Finished(units[id]) && ParkedUnlessRefused(units[id], log)
      ensures LinkDelete(false) !in log && Quiet(log)
      ensures ok ==> pins == DetachedPins(old(pins), units[id])
    {
      CmdLinkDelete();
      var detached, dlog := DetachPins(id);
      log := [LinkDelete(true)] + dlog;
      if !detached {
        assert log[|log| - 1] in log;
        return false, log;
      }
      var port := units[id].port;
      var given := SemaphoreGive(port);
      log := log + [Give(port, given)];
      assert log[|log| - 1] in log;
      ok := given;
    }

    /** The calls before the executor touch no lock and delete no link. */
    lemma PreparedQuiet(u: RuntimeUnit, chunks: seq<seq<Cmd>>, p: nat)
      ensures Select(Prepared(u, chunks), LockOps(p)) == [] && Select(Prepared(u, chunks), Deletes) == []
    {
      var t := Prepared(u, chunks);
      AppendsOnly(chunks);
      forall e | e in t ensures e.ParamConfig? || e.LinkCreate? || e.LinkAppend? {
        if e != t[0] && e != t[1] {
          assert e in Appends(chunks);
        }
      }
      SelectNone(t, LockOps(p));
      SelectNone(t, Deletes);
    }

    /** From the executor on, the only operation on the port's lock is the final give. */
    lemma FinishedGives(u: RuntimeUnit, exec: Event)
      requires exec.Execute?
      ensures Select([exec] + Finished(u), LockOps(u.port)) == [Give(u.port, true)]
    {
      var give := Give(u.port, true);
      var before := [exec, LinkDelete(true), PinIdle(u.scl, pullUp, true), PinIdle(u.sda, pullUp, true)];
      assert [exec] + Finished(u) == before + [give];
      SelectNone(before, LockOps(u.port));
      SelectSnoc(before, give, LockOps(u.port));
    }

    /** From the executor on, the link is deleted once. */
    lemma FinishedDeletes(u: RuntimeUnit, exec: Event)
      requires exec.Execute?
      ensures Select([exec] + Finished(u), Deletes) == [LinkDelete(true)]
    {
      var head, tail := [exec, LinkDelete(true)], [PinIdle(u.scl, pullUp, true), PinIdle(u.sda, pullUp, true), Give(u.port, true)];
      assert [exec] + Finished(u) == head + tail;
      SelectNone([exec], Deletes);
      SelectSnoc([exec], LinkDelete(true), Deletes);
      SelectNone(tail, Deletes);
      SelectConcat(head, tail, Deletes);
    }

    /**
     * The lock discipline of a transaction whose every call succeeded: the
     * port's lock is taken first and given last with no other operation on
     * it in between, the executor runs while the caller owns it, and the
     * link is deleted exactly once.
     */
    lemma TransactionDiscipline(u: RuntimeUnit, chunks: seq<seq<Cmd>>, exec: Event)
      requires exec.Execute?
      ensures var t := Transaction(u, chunks, exec); var k := |Prepared(u, chunks)| + 1;
        && k < |t| && t[k] == exec
        && Owns(t[..k], u.port) && !Owns(t, u.port)
        && Select(t, LockOps(u.port)) == [Take(u.port, true), Give(u.port, true)]
        && Select(t, Deletes) == [LinkDelete(true)]
    {
      var p := Prepared(u, chunks);
      var take := [Take(u.port, true)];
      PreparedQuiet(u, chunks, u.port);
      FinishedGives(u, exec);
      FinishedDeletes(u, exec);
      SelectSnoc([], Take(u.port, true), LockOps(u.port));
      SelectSnoc([], Take(u.port, true), Deletes);
      assert [] + take == take;
      SelectConcat(take, p, LockOps(u.port));
      SelectConcat(take, p, Deletes);
      var head := take + p;
      var tail := [exec] + Finished(u);
      var t := Transaction(u, chunks, exec);
      assert t == head + tail;
      assert t[..|p| + 1] == head;
      SelectConcat(head, tail, LockOps(u.port));
      SelectConcat(head, tail, Deletes);
    }

    /**
     * The default branch of sys_i2c_probe's switch jumps to the clean-up
     * after the lock was given and the link deleted, so a probe whose
     * executor returned neither ACK nor NACK gives the lock a second time and
     * deletes the already deleted link.
     */
    lemma ProbeErrorReleasesTwice(u: RuntimeUnit, addr: nat, esp: ExecResult)
      requires ValidAddress(addr)
      ensures var t := Transaction(u, ProbeChunks(addr), Execute(u.port, ProbeCommands(addr), PROBE_TIMEOUT_MS, esp, []))
                       + [PinIdle(u.scl, pullUp, true), PinIdle(u.sda, pullUp, true), LinkDelete(false), Give(u.port, true)];
        && Select(t, LockOps(u.port)) == [Take(u.port, true), Give(u.port, true), Give(u.port, true)]
        && Select(t, Deletes) == [LinkDelete(true), LinkDelete(false)]
    {
      var exec := Execute(u.port, ProbeCommands(addr), PROBE_TIMEOUT_MS, esp, []);
      TransactionDiscipline(u, ProbeChunks(addr), exec);
      var t := Transaction(u, ProbeChunks(addr), exec);
      SelectFour(t, PinIdle(u.scl, pullUp, true), PinIdle(u.sda, pullUp, true), LinkDelete(false), Give(u.port, true), LockOps(u.port));
      SelectFour(t, PinIdle(u.scl, pullUp, true), PinIdle(u.sda, pullUp, true), LinkDelete(false), Give(u.port, true), Deletes);
    }

    /** The calls of a transaction's locked part end with the give of the port's lock. */
    lemma LockedEndsWithGive(u: RuntimeUnit, chunks: seq<seq<Cmd>>, exec: Event)
      ensures var l := Locked(u, chunks, exec); l != [] && l[|l| - 1] == Give(u.port, true)
    {
    }

    /**
     * The `fail:` label reached from an argument check: the pins are
     * detached, with no link to delete and no lock to give.
     */
    method Refuse(id: nat) returns (ghost log: seq<Event>)
      requires |units| == busCount
      modifies this`trace, this`pins
      ensures trace == old(trace) + log
      ensures Rejected(id, log)
      ensures id < busCount ==> !Owns(log, units[id].port) && ParkedUnlessRefused(units[id], log)
      ensures forall e | e in log :: e.PinIdle?
      ensures Quiet(log)
    {
      var _, dlog := DetachPins(id);
      log := dlog;
      if id < busCount {
        SelectNone(log, LockOps(units[id].port));
      }
    }

    /**
     * The lock take that opens a transaction; when it is refused, the
     * `fail:` label detaches the pins and gives nothing back.
     */
    method TakeOrRefuse(id: nat) returns (taken: bool, ghost log: seq<Event>)
      requires |units| == busCount && id < busCount
      modifies this`trace, this`pins
      ensures trace == old(trace) + log
      ensures taken ==> log == [Take(units[id].port, true)] && pins == old(pins)
      ensures !taken ==> !AllAccepted(log) && !Owns(log, units[id].port) && ParkedUnlessRefused(units[id], log)
      ensures !taken ==> forall e | e in log :: !e.LinkDelete?
      ensures !taken ==> Take(units[id].port, true) !in log
      ensures Quiet(log)
    {
      var port := units[id].port;
      taken := SemaphoreTake(port);
      if taken {
        return true, [Take(port, true)];
      }
      ghost var flog := Refuse(id);
      log := [Take(port, false)] + flog;
      OwnsHasTake(log, port);
      assert log[0] in log;
    }

    /**
     * A successful take followed by the calls made while holding the lock:
     * the take refuses nothing and runs no executor, and the give that ends
     * the held calls leaves the lock free.
     */
    lemma HeldAfterTake(u: RuntimeUnit, h: seq<Event>, executed: Option<ExecResult>)
      requires Answered(h, executed) && ParkedUnlessRefused(u, h)
      requires h != [] && h[|h| - 1].Give? && h[|h| - 1].port == u.port
      ensures var t := [Take(u.port, true)] + h;
        && (AllAccepted(t) <==> AllAccepted(h))
        && Answered(t, executed)
        && (LinkDelete(false) in t <==> LinkDelete(false) in h)
        && ParkedUnlessRefused(u, t)
        && !Owns(t, u.port)
        && Take(u.port, true) in t
        && t[|t| - 1] == h[|h| - 1]
    {
      var t := [Take(u.port, true)] + h;
      QuietThen([Take(u.port, true)], h, executed);
      LastGiveReleases(t, u.port);
      assert t[0] in t;
    }

    /**
     * The `fail:` label's clean-up after the calls made while holding the
     * lock: it runs no executor, keeps every earlier call and refusal, and
     * its give ends the record.
     */
    lemma CleanUpAfter(u: RuntimeUnit, l: seq<Event>, f: seq<Event>, executed: Option<ExecResult>, run: Event)
      requires Answered(l, executed) && Quiet(f) && ParkedUnlessRefused(u, f)
      requires f != [] && f[|f| - 1].Give? && f[|f| - 1].port == u.port
      ensures var t := l + f;
        && (AllAccepted(t) <==> AllAccepted(l) && AllAccepted(f))
        && Answered(t, executed)
        && (run in l ==> run in t)
        && (LinkDelete(false) in t <==> LinkDelete(false) in l || LinkDelete(false) in f)
        && ParkedUnlessRefused(u, t)
        && t != [] && t[|t| - 1] == f[|f| - 1]
    {
      AnsweredThen(l, f, executed);
      if !AllAccepted(l) {
        RefusalKept(l, f);
      }
    }

    /** The argument checks of sys_i2c_read and sys_i2c_write. */
    predicate TransferArgsOk(id: nat, addr: nat, buf: array?<Byte>, size: nat) {
      id < busCount && ValidAddress(addr) && buf != null && size > 0
    }

    /**
     * The steps of sys_i2c_read made while holding the lock: attach the
     * pins, compose and execute the read, delete the link, detach the pins,
     * give the lock; it stops at the first refusal. `cmd` says whether a link
     * handle was obtained.
     */
    method ReadLocked(id: nat, addr: nat, reg: Byte, buf: array<Byte>, size: nat)
      returns (ok: bool, cmd: bool, ghost executed: Option<ExecResult>, ghost log: seq<Event>)
      requires Ready() && !linkLive && id < busCount && ValidAddress(addr) && 1 <= size <= buf.Length
      modifies this`trace, this`pins, this`link, this`linkLive, buf
      ensures trace == old(trace) + log
      ensures ok <==> AllAccepted(log) && executed == Some(EspOk)
      ensures Answered(log, executed)
      ensures ok ==> log == Locked(units[id], ReadChunks(addr, reg, size),
                                   Execute(units[id].port, ReadCommands(addr, reg, size), BUS_TIMEOUT_MS, EspOk, buf[..size]))
      ensures ok ==> ParkedUnlessRefused(units[id], log)
      ensures executed.Some? ==> cmd
      ensures linkLive <==> cmd && executed != Some(EspOk)
      ensures LinkDelete(false) !in log
      ensures buf[size..] == old(buf[size..])
      ensures executed.None? ==> buf[..] == old(buf[..])
      ensures ok ==> pins == DetachedPins(old(pins), units[id])
    {
      var port := units[id].port;
      executed := None;
      var prepared;
      ghost var plog: seq<Event>;
      prepared, cmd, plog := Prepare(id, ReadChunks(addr, reg, size));
      log := plog;
      if !prepared {
        return false, cmd, executed, log;
      }
      JoinReadChunks(addr, reg, size);
      var r := CmdBeginRead(port, BUS_TIMEOUT_MS, buf, size);
      executed := Some(r);
      ghost var exec := Execute(port, link, BUS_TIMEOUT_MS, r, buf[..size]);
      AppendAssoc(old(trace), log, [exec]);
      log := log + [exec];
      if r != EspOk {
        RanOnce(plog, exec, []);
        return false, cmd, executed, log;
      }
      ghost var flog: seq<Event>;
      ok, flog := Finish(id);
      RanOnce(plog, exec, flog);
      AppendAssoc(old(trace), log, flog);
      log := log + flog;
      SwapRestores(old(pins), units[id]);
    }

    /**
     * The part of sys_i2c_read after the lock was taken: the steps made
     * while holding it, then the `fail:` label's clean-up when one of them
     * was refused. The lock is given back on every path.
     */
    method ReadHeld(id: nat, addr: nat, reg: Byte, buf: array<Byte>, size: nat)
      returns (ok: bool, ghost executed: Option<ExecResult>, ghost log: seq<Event>)
      requires Ready() && !linkLive && id < busCount && ValidAddress(addr) && 1 <= size <= buf.Length
      modifies this`trace, this`pins, this`link, this`linkLive, buf
      ensures trace == old(trace) + log && !linkLive
      ensures ok <==> AllAccepted(log) && executed == Some(EspOk)
      ensures Answered(log, executed)
      ensures ok ==> log == Locked(units[id], ReadChunks(addr, reg, size),
                                   Execute(units[id].port, ReadCommands(addr, reg, size), BUS_TIMEOUT_MS, EspOk, buf[..size]))
      ensures ParkedUnlessRefused(units[id], log)
      ensures log != [] && log[|log| - 1].Give? && log[|log| - 1].port == units[id].port
      ensures LinkDelete(false) in log <==> !ok && executed == Some(EspOk)
      ensures buf[size..] == old(buf[size..])
      ensures executed.None? ==> buf[..] == old(buf[..])
      ensures ok ==> pins == DetachedPins(old(pins), units[id])
    {
      var cmd: bool;
      ok, cmd, executed, log := ReadLocked(id, addr, reg, buf, size);
      if ok {
        LockedEndsWithGive(units[id], ReadChunks(addr, reg, size),
                           Execute(units[id].port, ReadCommands(addr, reg, size), BUS_TIMEOUT_MS, EspOk, buf[..size]));
        return;
      }
      ghost var flog := Abandon(id, cmd, true);
      AppendAssoc(old(trace), log, flog);
      AnsweredThen(log, flog, executed);
      log := log + flog;
    }

    /**
     * sys_i2c_read: reads `size` bytes from register `reg` of device `addr`
     * on bus `id` into buf[..size], holding the port's lock while the bus's
     * pins are routed to the controller.
     */
    method Read(id: nat, addr: nat, reg: Byte, buf: array?<Byte>, size: nat)
      returns (ok: bool, ghost executed: Option<ExecResult>, ghost log: seq<Event>)
      requires Ready() && !linkLive
      requires buf != null ==> size <= buf.Length
      modifies this`trace, this`pins, this`link, this`linkLive, buf
      ensures trace == old(trace) + log && !linkLive
      ensures ok <==> TransferArgsOk(id, addr, buf, size) && AllAccepted(log) && executed == Some(EspOk)
      ensures Answered(log, executed)
      ensures ok ==> log == Transaction(units[id], ReadChunks(addr, reg, size),
                                        Execute(units[id].port, ReadCommands(addr, reg, size), BUS_TIMEOUT_MS, EspOk, buf[..size]))
      ensures !TransferArgsOk(id, addr, buf, size) ==> executed.None? && Rejected(id, log)
      ensures id < busCount ==> !Owns(log, units[id].port) && ParkedUnlessRefused(units[id], log)
      ensures LinkDelete(false) in log <==> !ok && executed == Some(EspOk)
      ensures buf != null ==> buf[size..] == old(buf[size..])
      ensures buf != null && executed.None? ==> buf[..] == old(buf[..])
      ensures ok ==> pins == DetachedPins(old(pins), units[id])
      ensures id < busCount && Take(units[id].port, true) in log ==> log[|log| - 1].Give? && log[|log| - 1].port == units[id].port
    {
      if !TransferArgsOk(id, addr, buf, size) {
        log := Refuse(id);
        return false, None, log;
      }
      var taken;
      ghost var tlog: seq<Event>;
      taken, tlog := TakeOrRefuse(id);
      if !taken {
        return false, None, tlog;
      }
      ghost var hlog: seq<Event>;
      ok, executed, hlog := ReadHeld(id, addr, reg, buf, size);
      AppendAssoc(old(trace), tlog, hlog);
      log := tlog + hlog;
      HeldAfterTake(units[id], hlog, executed);
    }

    /**
     * The steps of sys_i2c_write made while holding the lock, as for
     * ReadLocked with the register write's command list.
     */
    method WriteLocked(id: nat, addr: nat, reg: Byte, data: seq<Byte>)
      returns (ok: bool, cmd: bool, ghost executed: Option<ExecResult>, ghost log: seq<Event>)
      requires Ready() && !linkLive && id < busCount && ValidAddress(addr)
      modifies this`trace, this`pins, this`link, this`linkLive
      ensures trace == old(trace) + log
      ensures ok <==> AllAccepted(log) && executed == Some(EspOk)
      ensures Answered(log, executed)
      ensures ok ==> log == Locked(units[id], WriteChunks(addr, reg, data),
                                   Execute(units[id].port, WriteCommands(addr, reg, data), BUS_TIMEOUT_MS, EspOk, []))
      ensures ok ==> ParkedUnlessRefused(units[id], log)
      ensures executed.Some? ==> cmd
      ensures linkLive <==> cmd && executed != Some(EspOk)
      ensures LinkDelete(false) !in log
      ensures ok ==> pins == DetachedPins(old(pins), units[id])
    {
      var port := units[id].port;
      executed := None;
      var prepared;
      ghost var plog: seq<Event>;
      prepared, cmd, plog := Prepare(id, WriteChunks(addr, reg, data));
      log := plog;
      if !prepared {
        return false, cmd, executed, log;
      }
      JoinWriteChunks(addr, reg, data);
      var r := CmdBegin(port, BUS_TIMEOUT_MS);
      executed := Some(r);
      ghost var exec := Execute(port, link, BUS_TIMEOUT_MS, r, []);
      AppendAssoc(old(trace), log, [exec]);
      log := log + [exec];
      if r != EspOk {
        RanOnce(plog, exec, []);
        return false, cmd, executed, log;
      }
      ghost var flog: seq<Event>;
      ok, flog := Finish(id);
      RanOnce(plog, exec, flog);
      AppendAssoc(old(trace), log, flog);
      log := log + flog;
      SwapRestores(old(pins), units[id]);
    }

    /**
     * The part of sys_i2c_write after the lock was taken, as for ReadHeld.
     */
    method WriteHeld(id: nat, addr: nat, reg: Byte, data: seq<Byte>)
      returns (ok: bool, ghost executed: Option<ExecResult>, ghost log: seq<Event>)
      requires Ready() && !linkLive && id < busCount && ValidAddress(addr)
      modifies this`trace, this`pins, this`link, this`linkLive
      ensures trace == old(trace) + log && !linkLive
      ensures ok <==> AllAccepted(log) && executed == Some(EspOk)
      ensures Answered(log, executed)
      ensures ok ==> log == Locked(units[id], WriteChunks(addr, reg, data),
                                   Execute(units[id].port, WriteCommands(addr, reg, data), BUS_TIMEOUT_MS, EspOk, []))
      ensures ParkedUnlessRefused(units[id], log)
      ensures log != [] && log[|log| - 1].Give? && log[|log| - 1].port == units[id].port
      ensures LinkDelete(false) in log <==> !ok && executed == Some(EspOk)
      ensures ok ==> pins == DetachedPins(old(pins), units[id])
    {
      var cmd: bool;
      ok, cmd, executed, log := WriteLocked(id, addr, reg, data);
      if ok {
        LockedEndsWithGive(units[id], WriteChunks(addr, reg, data),
                           Execute(units[id].port, WriteCommands(addr, reg, data), BUS_TIMEOUT_MS, EspOk, []));
        return;
      }
      ghost var flog := Abandon(id, cmd, true);
      AppendAssoc(old(trace), log, flog);
      AnsweredThen(log, flog, executed);
      log := log + flog;
    }

    /**
     * sys_i2c_write: writes buf[..size] to register `reg` of device `addr`
     * on bus `id`, holding the port's lock while the bus's pins are routed
     * to the controller.
     */
    method Write(id: nat, addr: nat, reg: Byte, buf: array?<Byte>, size: nat)
      returns (ok: bool, ghost executed: Option<ExecResult>, ghost log: seq<Event>)
      requires Ready() && !linkLive
      requires buf != null ==> size <= buf.Length
      modifies this`trace, this`pins, this`link, this`linkLive
      ensures trace == old(trace) + log && !linkLive
      ensures ok <==> TransferArgsOk(id, addr, buf, size) && AllAccepted(log) && executed == Some(EspOk)
      ensures Answered(log, executed)
      ensures ok ==> log == Transaction(units[id], WriteChunks(addr, reg, buf[..size]),
                                        Execute(units[id].port, WriteCommands(addr, reg, buf[..size]), BUS_TIMEOUT_MS, EspOk, []))
      ensures !TransferArgsOk(id, addr, buf, size) ==> executed.None? && Rejected(id, log)
      ensures id < busCount ==> !Owns(log, units[id].port) && ParkedUnlessRefused(units[id], log)
      ensures LinkDelete(false) in log <==> !ok && executed == Some(EspOk)
      ensures ok ==> pins == DetachedPins(old(pins), units[id])
      ensures id < busCount && Take(units[id].port, true) in log ==> log[|log| - 1].Give? && log[|log| - 1].port == units[id].port
    {
      if !TransferArgsOk(id, addr, buf, size) {
        log := Refuse(id);
        return false, None, log;
      }
      var taken;
      ghost var tlog: seq<Event>;
      taken, tlog := TakeOrRefuse(id);
      if !taken {
        return false, None, tlog;
      }
      ghost var hlog: seq<Event>;
      ok, executed, hlog := WriteHeld(id, addr, reg, buf[..size]);
      AppendAssoc(old(trace), tlog, hlog);
      log := tlog + hlog;
      HeldAfterTake(units[id], hlog, executed);
    }

    /**
     * The steps of sys_i2c_probe made while holding the lock: as for
     * ReadLocked with the address strobe, except that the link is deleted
     * and the pins detached whatever the executor returned; `esp` is what it
     * returned.
     */
    method ProbeLocked(id: nat, addr: nat)
      returns (ok: bool, cmd: bool, esp: ExecResult, ghost executed: Option<ExecResult>, ghost log: seq<Event>)
      requires Ready() && !linkLive && id < busCount && ValidAddress(addr)
      modifies this`trace, this`pins, this`link, this`linkLive
      ensures trace == old(trace) + log
      ensures ok <==> AllAccepted(log) && executed.Some?
      ensures Answered(log, executed)
      ensures executed.None? ==> !AllAccepted(log)
      ensures executed.Some? ==> cmd && executed.value == esp
      ensures executed.Some? ==> Execute(units[id].port, ProbeCommands(addr), PROBE_TIMEOUT_MS, executed.value, []) in log
      ensures ok ==> log == Locked(units[id], ProbeChunks(addr),
                                   Execute(units[id].port, ProbeCommands(addr), PROBE_TIMEOUT_MS, esp, []))
      ensures ok ==> ParkedUnlessRefused(units[id], log)
      ensures linkLive <==> cmd && executed.None?
      ensures LinkDelete(false) !in log
      ensures ok ==> pins == DetachedPins(old(pins), units[id])
    {
      var port := units[id].port;
      esp, executed := EspFail, None;
      var prepared;
      ghost var plog: seq<Event>;
      prepared, cmd, plog := Prepare(id, ProbeChunks(addr));
      log := plog;
      if !prepared {
        return false, cmd, esp, executed, log;
      }
      JoinProbeChunks(addr);
      esp := CmdBegin(port, PROBE_TIMEOUT_MS);
      executed := Some(esp);
      ghost var exec := Execute(port, link, PROBE_TIMEOUT_MS, esp, []);
      AppendAssoc(old(trace), log, [exec]);
      log := log + [exec];
      ghost var flog: seq<Event>;
      ok, flog := Finish(id);
      RanOnce(plog, exec, flog);
      AppendAssoc(old(trace), log, flog);
      log := log + flog;
      SwapRestores(old(pins), units[id]);
    }

    /** The argument checks of sys_i2c_probe. */
    predicate ProbeArgsOk(id: nat, addr: nat, flag: FlagCell?) {
      id < busCount && ValidAddress(addr) && flag != null
    }

    /**
     * The part of sys_i2c_probe after the lock was taken: the steps made
     * while holding it, the switch on what the executor returned, and the
     * `fail:` label's clean-up when a step was refused or the result was
     * neither an ACK nor a NACK.
     */
    method ProbeHeld(id: nat, addr: nat, flag: FlagCell)
      returns (ok: bool, ghost executed: Option<ExecResult>, ghost log: seq<Event>)
      requires Ready() && !linkLive && id < busCount && ValidAddress(addr)
      modifies this`trace, this`pins, this`link, this`linkLive, flag
      ensures trace == old(trace) + log && !linkLive
      ensures ok <==> AllAccepted(log) && executed.Some? && (executed.value == EspOk || executed.value == EspFail)
      ensures Answered(log, executed)
      ensures executed.Some? ==> Execute(units[id].port, ProbeCommands(addr), PROBE_TIMEOUT_MS, executed.value, []) in log
      ensures ok ==> flag.value == (executed.value == EspOk)
      ensures !ok ==> flag.value == old(flag.value)
      ensures AllAccepted(log) && executed.Some? ==>
        var u := units[id];
        var done := Locked(u, ProbeChunks(addr), Execute(u.port, ProbeCommands(addr), PROBE_TIMEOUT_MS, executed.value, []));
        log == if ok then done else done + [PinIdle(u.scl, pullUp, true), PinIdle(u.sda, pullUp, true), LinkDelete(false), Give(u.port, true)]
      ensures ParkedUnlessRefused(units[id], log)
      ensures log != [] && log[|log| - 1].Give? && log[|log| - 1].port == units[id].port
      ensures LinkDelete(false) in log <==> !ok && executed.Some?
      ensures executed.None? ==> !AllAccepted(log)
      ensures ok ==> pins == DetachedPins(old(pins), units[id])
    {
      var locked, cmd, esp;
      locked, cmd, esp, executed, log := ProbeLocked(id, addr);
      if locked {
        LockedEndsWithGive(units[id], ProbeChunks(addr), Execute(units[id].port, ProbeCommands(addr), PROBE_TIMEOUT_MS, esp, []));
        // the switch on esp_err: ACK, NACK, or any other error
        if esp == EspOk {
          flag.value := true;
          return true, executed, log;
        } else if esp == EspFail {
          flag.value := false;
          return true, executed, log;
        }
      }
      ghost var flog := Abandon(id, cmd, true);
      AppendAssoc(old(trace), log, flog);
      ghost var run := Execute(units[id].port, ProbeCommands(addr), PROBE_TIMEOUT_MS, esp, []);
      CleanUpAfter(units[id], log, flog, executed, run);
      log := log + flog;
      ok := false;
    }

    /**
     * sys_i2c_probe: strobes address `addr` on bus `id` and reports through
     * `flag` whether a device acknowledged (ESP_OK) or not (ESP_FAIL); any
     * other executor result is a failure.
     */
    method Probe(id: nat, addr: nat, flag: FlagCell?)
      returns (ok: bool, ghost executed: Option<ExecResult>, ghost log: seq<Event>)
      requires Ready() && !linkLive
      modifies this`trace, this`pins, this`link, this`linkLive, flag
      ensures trace == old(trace) + log && !linkLive
      ensures ok <==> ProbeArgsOk(id, addr, flag) && AllAccepted(log) && executed.Some?
                      && (executed.value == EspOk || executed.value == EspFail)
      ensures Answered(log, executed)
      ensures executed.Some? ==> ProbeArgsOk(id, addr, flag) && Execute(units[id].port, ProbeCommands(addr), PROBE_TIMEOUT_MS, executed.value, []) in log
      ensures ok ==> flag.value == (executed.value == EspOk)
      ensures ok ==> log == Transaction(units[id], ProbeChunks(addr),
                                        Execute(units[id].port, ProbeCommands(addr), PROBE_TIMEOUT_MS, executed.value, []))
      ensures !ok && flag != null ==> flag.value == old(flag.value)
      ensures !ProbeArgsOk(id, addr, flag) ==> executed.None? && Rejected(id, log)
      ensures id < busCount ==> !Owns(log, units[id].port) && ParkedUnlessRefused(units[id], log)
      ensures LinkDelete(false) in log <==> !ok && executed.Some?
      ensures ProbeArgsOk(id, addr, flag) && executed.None? ==> !AllAccepted(log)
      ensures ProbeArgsOk(id, addr, flag) && AllAccepted(log) && executed.Some?
              && executed.value != EspOk && executed.value != EspFail ==>
        var u := units[id];
        log == Transaction(u, ProbeChunks(addr), Execute(u.port, ProbeCommands(addr), PROBE_TIMEOUT_MS, executed.value, []))
               + [PinIdle(u.scl, pullUp, true), PinIdle(u.sda, pullUp, true), LinkDelete(false), Give(u.port, true)]
      ensures ok ==> pins == DetachedPins(old(pins), units[id])
      ensures id < busCount && Take(units[id].port, true) in log ==> log[|log| - 1].Give? && log[|log| - 1].port == units[id].port
    {
      if !ProbeArgsOk(id, addr, flag) {
        log := Refuse(id);
        return false, None, log;
      }
      var taken;
      ghost var tlog: seq<Event>;
      taken, tlog := TakeOrRefuse(id);
      if !taken {
        return false, None, tlog;
      }
      ghost var hlog: seq<Event>;
      ok, executed, hlog := ProbeHeld(id, addr, flag);
      AppendAssoc(old(trace), tlog, hlog);
      log := tlog + hlog;
      HeldAfterTake(units[id], hlog, executed);
      if AllAccepted(hlog) && executed.Some? {
        // the error path's clean-up follows the whole transaction
        var u := units[id];
        AppendAssoc(tlog, Locked(u, ProbeChunks(addr), Execute(u.port, ProbeCommands(addr), PROBE_TIMEOUT_MS, executed.value, [])),
                    [PinIdle(u.scl, pullUp, true), PinIdle(u.sda, pullUp, true), LinkDelete(false), Give(u.port, true)]);
      }
    }
  

    // -------------------------------------------------------------------
    // Bus scan

    /**
     * The record `c` of one probe is what sys_i2c_probe on its bus and
     * address made: the lock is not left owned; the probe succeeded exactly
     * when every call was accepted and the executor answered with an ACK or
     * a NACK; an executor that never ran means a refused call and no run
     * recorded; when it ran, the strobe of the address is recorded with the
     * answer `executed`, and every recorded run answered that; the link was
     * deleted a second time exactly when the executor ran and the probe
     * still failed; and a successful probe made exactly the address strobe
     * whose answer is the reported flag.
     */
    ghost predicate ProbeMade(table: seq<RuntimeUnit>, c: ProbeCall)
    {
      && c.id < |table| && ValidAddress(c.addr)
      && var u := table[c.id];
      && !Owns(c.log, u.port)
      && (c.ok <==> AllAccepted(c.log) && c.executed.Some? && (c.executed.value == EspOk || c.executed.value == EspFail))
      && (c.executed.None? ==> !AllAccepted(c.log))
      && (c.executed.Some? ==> Execute(u.port, ProbeCommands(c.addr), PROBE_TIMEOUT_MS, c.executed.value, []) in c.log)
      && (forall e | e in c.log && e.Execute? :: c.executed == Some(e.result))
      && (c.ok ==> c.executed == Some(if c.found then EspOk else EspFail))
      && (LinkDelete(false) in c.log <==> !c.ok && c.executed.Some?)
      && (c.ok ==> c.log == Transaction(u, ProbeChunks(c.addr),
                                       Execute(u.port, ProbeCommands(c.addr), PROBE_TIMEOUT_MS,
                                               if c.found then EspOk else EspFail, [])))
    }

    /**
     * Every call of a transaction that ran to its give was accepted, and it
     * deleted no link twice.
     */
    lemma TransactionAccepted(u: RuntimeUnit, chunks: seq<seq<Cmd>>, exec: Event)
      requires exec.Execute?
      ensures AllAccepted(Transaction(u, chunks, exec))
      ensures LinkDelete(false) !in Transaction(u, chunks, exec)
    {
      AppendsOnly(chunks);
    }

    /**
     * What makes sys_i2c_probe fail, read off its calls: a call was refused,
     * or the executor ran and answered neither an ACK nor a NACK.
     */
    ghost predicate ProbeFailed(log: seq<Event>) {
      || !AllAccepted(log)
      || (!Quiet(log) && forall e | e in log && e.Execute? :: e.result != EspOk && e.result != EspFail)
    }

    /** A probe that was made succeeded exactly when its calls show no failure. */
    lemma ProbeOutcome(table: seq<RuntimeUnit>, c: ProbeCall)
      requires ProbeMade(table, c)
      ensures c.ok <==> !ProbeFailed(c.log)
    {
      if !c.ok && AllAccepted(c.log) {
        var e :| e in c.log && e.Execute?;
      }
    }

    /**
     * A probe recorded as failed failed in its calls, and so made neither
     * successful strobe of its address: the scan reports a failure only when
     * sys_i2c_probe failed.
     */
    lemma FailedProbeStrobedNothing(table: seq<RuntimeUnit>, c: ProbeCall, acked: bool)
      requires ProbeMade(table, c) && !c.ok
      ensures ProbeFailed(c.log)
      ensures var u := table[c.id];
        c.log != Transaction(u, ProbeChunks(c.addr),
                             Execute(u.port, ProbeCommands(c.addr), PROBE_TIMEOUT_MS, if acked then EspOk else EspFail, []))
    {
      ProbeOutcome(table, c);
      var u := table[c.id];
      TransactionAccepted(u, ProbeChunks(c.addr),
                          Execute(u.port, ProbeCommands(c.addr), PROBE_TIMEOUT_MS, if acked then EspOk else EspFail, []));
    }

    /** Every record of `calls` is a probe that was made. */
    ghost predicate ProbesMade(table: seq<RuntimeUnit>, calls: seq<ProbeCall>) {
      forall c {:trigger ProbeMade(table, c)} | c in calls :: ProbeMade(table, c)
    }

    /**
     * A scan that stopped at a failed probe stopped at one that failed in its
     * calls and made neither successful strobe of its target.
     */
    lemma StopWasRefused(table: seq<RuntimeUnit>, calls: seq<ProbeCall>, acked: bool)
      requires ProbesMade(table, calls) && StoppedAtLast(calls)
      ensures var c := calls[|calls| - 1];
        && c.id < |table| && ValidAddress(c.addr)
        && ProbeFailed(c.log)
        && c.log != Transaction(table[c.id], ProbeChunks(c.addr),
                                Execute(table[c.id].port, ProbeCommands(c.addr), PROBE_TIMEOUT_MS,
                                        if acked then EspOk else EspFail, []))
    {
      assert calls[|calls| - 1] in calls;
      FailedProbeStrobedNothing(table, calls[|calls| - 1], acked);
    }

    /** Appending the record of a probe made after the calls of `calls` extends what they made. */
    lemma ProbeRecorded(table: seq<RuntimeUnit>, t0: seq<Event>, calls: seq<ProbeCall>, c: ProbeCall)
      requires ProbesMade(table, calls) && ProbeMade(table, c)
      ensures (t0 + Logs(calls)) + c.log == t0 + Logs(calls + [c]) && ProbesMade(table, calls + [c])
    {
      assert (calls + [c])[..|calls|] == calls;
    }

    /** Appending the records of a bus's probes made after the calls of `calls` extends what they made. */
    lemma BusRecorded(table: seq<RuntimeUnit>, t0: seq<Event>, calls: seq<ProbeCall>, bus: seq<ProbeCall>)
      requires ProbesMade(table, calls) && ProbesMade(table, bus)
      ensures (t0 + Logs(calls)) + Logs(bus) == t0 + Logs(calls + bus) && ProbesMade(table, calls + bus)
    {
      LogsConcat(calls, bus);
      AppendAssoc(t0, Logs(calls), Logs(bus));
    }

    /**
     * One pass of the scan's do-while body: probe `addr` on bus `id` and
     * read `found_flag` back. The result is the record of that probe.
     */
    method ScanAddress(id: nat, addr: nat, flag: FlagCell) returns (probed: bool, acked: bool, ghost c: ProbeCall)
      requires Ready() && !linkLive && id < busCount && ValidAddress(addr)
      modifies this`trace, this`pins, this`link, this`linkLive, flag
      ensures trace == old(trace) + c.log && !linkLive
      ensures c == ProbeCall(id, addr, probed, probed && acked, c.executed, c.log) && ProbeMade(units, c)
    {
      ghost var executed: Option<ExecResult>;
      ghost var log: seq<Event>;
      probed, executed, log := Probe(id, addr, flag);
      acked := flag.value;
      c := ProbeCall(id, addr, probed, probed && acked, executed, log);
    }

    /**
     * One bus of sys_i2c_scan_print: the do-while that probes SCAN_ADDR_MIN
     * to SCAN_ADDR_MAX, counting the devices that acknowledged and stopping
     * at the first probe that fails; a failed probe reports no device.
     */
    method ScanBus(id: nat) returns (ok: bool, found: nat, ghost calls: seq<ProbeCall>)
      requires Ready() && !linkLive && id < busCount
      modifies this`trace, this`pins, this`link, this`linkLive
      ensures !linkLive
      ensures BusScanned(id, ok, calls, found)
      ensures trace == old(trace) + Logs(calls) && ProbesMade(units, calls)
    {
      var flag := new FlagCell();
      found, calls := 0, [];
      // the do-while runs at least once, as SCAN_ADDR_MIN <= SCAN_ADDR_MAX
      var addr := SCAN_ADDR_MIN;
      while addr <= SCAN_ADDR_MAX
        invariant addr == SCAN_ADDR_MIN + |calls| && |calls| <= SCAN_WIDTH && !linkLive
        invariant BusSoFar(id, calls, found)
        invariant trace == old(trace) + Logs(calls) && ProbesMade(units, calls)
      {
        var probed, acked;
        ghost var c: ProbeCall;
        probed, acked, c := ScanAddress(id, addr, flag);
        BusStep(id, calls, found, c);
        ProbeRecorded(units, old(trace), calls, c);
        calls := calls + [c];
        if !probed {
          return false, found, calls;
        }
        if acked {
          found := found + 1;
        }
        addr := addr + 1;
      }
      BusDone(id, calls, found);
      ok := true;
    }

    /**
     * One pass of the scan's loop over the buses: scan bus `id` after the
     * probes `calls` of the buses before it, whose calls follow `t0` in the
     * trace, and add its probes and its device count.
     */
    method ScanNextBus(id: nat, ghost t0: seq<Event>, ghost calls: seq<ProbeCall>, found: nat)
      returns (busOk: bool, total: nat, ghost all: seq<ProbeCall>)
      requires Ready() && !linkLive && id < busCount
      requires BusesScanned(id, calls, found) && trace == t0 + Logs(calls) && ProbesMade(units, calls)
      modifies this`trace, this`pins, this`link, this`linkLive
      ensures !linkLive
      ensures busOk ==> BusesScanned(id + 1, all, total)
      ensures !busOk ==> ScanOutcome(busCount, false, all, total)
      ensures trace == t0 + Logs(all) && ProbesMade(units, all)
    {
      var busFound;
      ghost var busCalls: seq<ProbeCall>;
      busOk, busFound, busCalls := ScanBus(id);
      AfterBus(busCount, id, calls, found, busOk, busCalls, busFound);
      BusRecorded(units, t0, calls, busCalls);
      all, total := calls + busCalls, found + busFound;
    }

    /**
     * sys_i2c_scan_print without its printing: scans every bus in turn and
     * totals the devices found, stopping at the first probe that fails.
     * `calls` records each probe made.
     */
    method ScanPrint() returns (ok: bool, found: nat, ghost calls: seq<ProbeCall>)
      requires Ready() && !linkLive
      modifies this`trace, this`pins, this`link, this`linkLive
      ensures !linkLive
      ensures ScanOutcome(busCount, ok, calls, found)
      ensures trace == old(trace) + Logs(calls) && ProbesMade(units, calls)
    {
      found, calls := 0, [];
      var id := 0;
      while id < busCount
        invariant id <= busCount && !linkLive
        invariant BusesScanned(id, calls, found)
        invariant trace == old(trace) + Logs(calls) && ProbesMade(units, calls)
      {
        var busOk;
        busOk, found, calls := ScanNextBus(id, old(trace), calls, found);
        if !busOk {
          return false, found, calls;
        }
        id := id + 1;
      }
      ScanComplete(busCount, calls, found);
      ok := true;
    }
  }
}
